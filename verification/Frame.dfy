/**
 * Frame construction and parsing (internal/bms/frame.go): the 16-bit ASCII-sum checksum, the LENGTH field,
 * the request builder and the response parser. `EncodeFrame` is the device's side of the protocol.
 */
module Frame {
  import opened Wrappers
  import opened Sample
  import opened Hex

  const SOI: Byte := 0x7E
  const EOI: Byte := 0x0D
  const VER: Byte := 0x21
  const CID1: Byte := 0x46
  const CID2_ANALOG: Byte := 0x42
  const RTN_OK := 0x00

  // The largest INFO payload whose hex count fits the 12-bit LENGTH.
  const MAX_INFO := 0x7FF

  datatype Frame = Frame(
    ver: int, addr: int, cid1: int, cid2: int, info: seq<Byte>, checksum: seq<Byte>, checksumOK: bool)

  // ---- Checksum ----

  function Sum(s: seq<Byte>): nat {
    if s == [] then 0 else Sum(s[..|s| - 1]) + s[|s| - 1]
  }

  // (^total + 1) & 0xFFFF on a two's-complement int is -total modulo 2^16.
  function Complement(total: int): (r: int)
    ensures 0 <= r < 0x1_0000 && (total + r) % 0x1_0000 == 0
  {
    (-total) % 0x1_0000
  }

  function Checksum(s: seq<Byte>): (r: seq<Byte>)
    ensures |r| == 4 && IsClean(r)
  {
    Hex4(Complement(Sum(s)))
  }

  method ComputeChecksum(inner: seq<Byte>) returns (r: seq<Byte>)
    ensures r == Checksum(inner)
  {
    var total: int := 0;
    for i := 0 to |inner|
      invariant total == Sum(inner[..i])
    {
      assert inner[..i + 1][..i] == inner[..i];
      total := total + inner[i];
    }
    assert inner[..|inner|] == inner;
    r := Hex4(Complement(total));
  }

  lemma Residues(x: int, y: int)
    requires 0 <= x < 0x1_0000
    ensures x == Complement(y) <==> (x + y) % 0x1_0000 == 0
  {
  }

  // Body sum and checksum cancel modulo 2^16, and no other four digits do that.
  lemma ChecksumCancelsSum(s: seq<Byte>, c: seq<Byte>)
    requires |c| == 4 && IsClean(c)
    ensures c == Checksum(s) <==> (Sum(s) + Number(c)) % 0x1_0000 == 0
  {
    hide Hex4, Complement, Number, Sum;
    Number4(c);
    NumberHex4(Complement(Sum(s)));
    Residues(Number(c), Sum(s));
  }

  lemma {:induction false} SumAppend(a: seq<Byte>, b: seq<Byte>)
    ensures Sum(a + b) == Sum(a) + Sum(b)
  {
    if b == [] {
      assert a + b == a;
    } else {
      var k := |b| - 1;
      assert (a + b)[..|a + b| - 1] == a + b[..k];
      SumAppend(a, b[..k]);
    }
  }

  lemma SumUpdate(s: seq<Byte>, i: nat, d: Byte)
    requires i < |s|
    ensures Sum(s[i := d]) == Sum(s) - s[i] + d
  {
    assert s == s[..i] + ([s[i]] + s[i + 1..]);
    assert s[i := d] == s[..i] + ([d] + s[i + 1..]);
    SumAppend(s[..i], [s[i]] + s[i + 1..]);
    SumAppend(s[..i], [d] + s[i + 1..]);
    SumAppend([s[i]], s[i + 1..]);
    SumAppend([d], s[i + 1..]);
    assert [s[i]][..0] == [] && [d][..0] == [];
  }

  // Two bodies carry the same checksum exactly when their sums agree modulo 2^16.
  lemma SameChecksum(a: seq<Byte>, b: seq<Byte>)
    ensures Checksum(a) == Checksum(b) <==> (Sum(a) - Sum(b)) % 0x1_0000 == 0
  {
    hide Hex4, Complement, Number, Sum;
    NumberHex4(Complement(Sum(a)));
    NumberHex4(Complement(Sum(b)));
    Residues(Complement(Sum(a)), Sum(b));
  }

  // On upper-case text strings.EqualFold is plain equality.
  lemma EqualFoldClean(a: seq<Byte>, b: seq<Byte>)
    requires IsClean(a) && IsClean(b)
    ensures EqualFold(a, b) <==> a == b
  {
    if EqualFold(a, b) {
      assert forall i :: 0 <= i < |a| ==> Upper(a[i]) == a[i] && Upper(b[i]) == b[i];
    }
  }

  // ---- The LENGTH field ----

  function LengthNibble(count: int): (r: int)
    ensures 0 <= r < 16
  {
    (-(count % 0x1000)) % 16
  }

  function EncodeLength(count: int): (r: seq<Byte>)
    ensures |r| == 4 && IsClean(r)
  {
    Hex4(LengthNibble(count) * 0x1000 + count % 0x1000)
  }

  lemma ShiftedModulo(x: int, k: int)
    ensures (x + 16 * k) % 16 == x % 16
  {
  }

  lemma NibbleOf(count: int)
    ensures LengthNibble(count) == (-count) % 16
  {
    var q, m := count / 0x1000, count % 0x1000;
    assert -count == -m + 16 * (-0x100 * q);
    ShiftedModulo(-m, -0x100 * q);
  }

  lemma NegatedModulo(x: int)
    ensures (-x) % 16 == if x % 16 == 0 then 0 else 16 - x % 16
  {
    assert x == 16 * (x / 16) + x % 16;
  }

  // The check nibble sees the low nibble of the count only: two counts are told apart iff they differ modulo 16.
  lemma LengthNibbleSeesLowNibbleOnly(a: int, b: int)
    ensures LengthNibble(a) == LengthNibble(b) <==> a % 16 == b % 16
  {
    hide LengthNibble;
    NibbleOf(a);
    NibbleOf(b);
    NegatedModulo(a);
    NegatedModulo(b);
  }

  // The low 12 bits of a LENGTH field are its three low digits.
  lemma LowTwelveBits(f: seq<Byte>)
    requires |f| == 4 && AllHex(f)
    ensures Number(f) % 0x1000 == 0x100 * ValueOf(f[1]) + 16 * ValueOf(f[2]) + ValueOf(f[3])
  {
    Number4(f);
    Number2(f[..2]);
    Number2(f[2..]);
    var h, m := ValueOf(f[0]), 0x100 * ValueOf(f[1]) + 16 * ValueOf(f[2]) + ValueOf(f[3]);
    assert Number(f) == 0x1000 * h + m;
  }

  lemma DecodeLength(count: nat)
    requires count < 0x1000
    ensures Number(EncodeLength(count)) % 0x1000 == count
  {
    hide Hex4, Number, LengthNibble;
    NumberHex4(LengthNibble(count) * 0x1000 + count);
  }

  // ---- Building ----

  // The frame text between SOI and EOI, checksum included.
  function Body(ver: int, addr: int, cid1: int, cid2: int, info: seq<Byte>): (r: seq<Byte>)
    requires 0 <= ver < 0x100 && 0 <= addr < 0x100 && 0 <= cid1 < 0x100 && 0 <= cid2 < 0x100
    ensures |r| == 12 + 2 * |info| && IsClean(r)
  {
    Hex2(ver) + Hex2(addr) + Hex2(cid1) + Hex2(cid2) + EncodeLength(2 * |info|) + Encode(info)
  }

  function EncodeFrame(ver: int, addr: int, cid1: int, cid2: int, info: seq<Byte>): (r: seq<Byte>)
    requires 0 <= ver < 0x100 && 0 <= addr < 0x100 && 0 <= cid1 < 0x100 && 0 <= cid2 < 0x100
    ensures |r| == 16 + 2 * |info| && IsClean(r)
  {
    Body(ver, addr, cid1, cid2, info) + Checksum(Body(ver, addr, cid1, cid2, info))
  }

  // addr & 0xFF is the residue modulo 256 for negative addresses too.
  function BuildCommand(addr: int, cid2: Byte): seq<Byte> {
    var infoHex := Hex2(addr % 0x100);
    var lengthHex := EncodeLength(|infoHex|);
    var inner := Hex2(VER) + Hex2(addr % 0x100) + Hex2(CID1) + Hex2(cid2) + lengthHex + infoHex;
    [SOI] + inner + Checksum(inner) + [EOI]
  }

  function BuildAnalogRequest(addr: int): seq<Byte> {
    BuildCommand(addr, CID2_ANALOG)
  }

  // A request has the layout of a response whose INFO is the address byte.
  lemma CommandIsFrame(addr: int, cid2: Byte)
    ensures BuildCommand(addr, cid2) == [SOI] + EncodeFrame(VER, addr % 0x100, CID1, cid2, [addr % 0x100]) + [EOI]
  {
    assert Encode([addr % 0x100]) == Hex2(addr % 0x100);
  }

  lemma SumPair(a: Byte, b: Byte)
    ensures Sum([a, b]) == a as int + b as int
  {
    assert Sum([a]) == Sum([a][..0]) + a;
    assert Sum([a, b]) == Sum([a, b][..1]) + b;
    assert [a, b][..1] == [a];
  }

  lemma KnownSum()
    ensures Sum([50, 49, 48, 48, 52, 54, 52, 50, 69, 48, 48, 50, 48, 48]) == 714
  {
    var a, b, c, d: seq<Byte> := [50, 49, 48, 48], [52, 54, 52, 50], [69, 48, 48, 50], [48, 48];
    assert a == [50, 49] + [48, 48] && b == [52, 54] + [52, 50] && c == [69, 48] + [48, 50];
    SumPair(50, 49);
    SumPair(48, 48);
    SumPair(52, 54);
    SumPair(52, 50);
    SumPair(69, 48);
    SumPair(48, 50);
    hide Sum;
    SumAppend([50, 49], [48, 48]);
    SumAppend([52, 54], [52, 50]);
    SumAppend([69, 48], [48, 50]);
    SumAppend(a, b);
    SumAppend(a + b, c);
    SumAppend(a + b + c, d);
    assert a + b + c + d == [50, 49, 48, 48, 52, 54, 52, 50, 69, 48, 48, 50, 48, 48];
  }

  lemma KnownFields()
    ensures Hex2(VER) == [50, 49] && Hex2(0) == [48, 48] && Hex2(CID1) == [52, 54] && Hex2(CID2_ANALOG) == [52, 50]
    ensures Hex2(0xE0) == [69, 48] && Hex2(2) == [48, 50] && Hex2(0xFD) == [70, 68] && Hex2(0x36) == [51, 54]
    ensures LengthNibble(2) * 0x1000 + 2 == 0xE002 && Complement(714) == 0xFD36
  {
  }

  // The reference request for address 0 is ~21004642E00200FD36 and a carriage return.
  lemma KnownRequest()
    ensures BuildAnalogRequest(0)
            == [0x7E, 50, 49, 48, 48, 52, 54, 52, 50, 69, 48, 48, 50, 48, 48, 70, 68, 51, 54, 0x0D]
  {
    hide Sum, Hex2, LengthNibble, Complement;
    KnownSum();
    KnownFields();
    var inner: seq<Byte> := [50, 49, 48, 48, 52, 54, 52, 50, 69, 48, 48, 50, 48, 48];
    assert EncodeLength(2) == Hex4(0xE002) == [69, 48, 48, 50];
    assert Hex2(VER) + Hex2(0) + Hex2(CID1) + Hex2(CID2_ANALOG) + EncodeLength(2) + Hex2(0) == inner;
    assert Checksum(inner) == Hex4(0xFD36) == [70, 68, 51, 54];
  }

  // ---- Parsing ----

  function InfoHexLen(s: seq<Byte>): (n: nat)
    requires |s| >= 12 && AllHex(s[8..12])
    ensures n < 0x1000
  {
    Number(s[8..12]) % 0x1000
  }

  function ParseFrame(s: seq<Byte>): Result<Frame, BmsError> {
    if |s| < 16 then Failure(ErrFraming)
    else if !AllHex(s[0..2]) then Failure(ErrFraming)
    else if !AllHex(s[2..4]) then Failure(ErrFraming)
    else if !AllHex(s[4..6]) then Failure(ErrFraming)
    else if !AllHex(s[6..8]) then Failure(ErrFraming)
    else if !AllHex(s[8..12]) then Failure(ErrFraming)
    else
      var n := InfoHexLen(s);
      if n % 2 != 0 then Failure(ErrFraming)
      else if |s| < 12 + n + 4 then Failure(ErrFraming)
      else if !AllHex(s[12..12 + n]) then Failure(ErrFraming)
      else if Number(s[6..8]) != RTN_OK then Failure(ErrBMS)
      else
        var field := s[12 + n..12 + n + 4];
        Success(Frame(
          Number(s[0..2]), Number(s[2..4]), Number(s[4..6]), Number(s[6..8]),
          Decode(s[12..12 + n]), field, EqualFold(Checksum(s[..12 + n]), field)))
  }

  // The parser found a whole frame in s, whatever its return code says.
  predicate Framed(s: seq<Byte>) {
    ParseFrame(s) != Failure(ErrFraming)
  }

  // The number of characters the frame at the head of s occupies.
  function Consumed(s: seq<Byte>): (k: nat)
    requires |s| >= 12 && AllHex(s[8..12])
  {
    16 + InfoHexLen(s)
  }

  // Parsed, and the recomputed checksum matched.
  predicate Verified(s: seq<Byte>) {
    ParseFrame(s).Success? && ParseFrame(s).value.checksumOK
  }

  // Texts that agree on a frame's length parse alike.
  lemma SameHead(s: seq<Byte>, t: seq<Byte>)
    requires Framed(s) && Consumed(s) <= |t| && Consumed(s) <= |s| && t[..Consumed(s)] == s[..Consumed(s)]
    ensures ParseFrame(t) == ParseFrame(s)
  {
    hide Number, Checksum, Decode, EqualFold;
    var n, k := InfoHexLen(s), Consumed(s);
    SubSlice(s, t, k, 0, 2);
    SubSlice(s, t, k, 2, 4);
    SubSlice(s, t, k, 4, 6);
    SubSlice(s, t, k, 6, 8);
    SubSlice(s, t, k, 8, 12);
    SubSlice(s, t, k, 12, 12 + n);
    SubSlice(s, t, k, 12 + n, 16 + n);
    SubSlice(s, t, k, 0, 12 + n);
  }

  // Where a framed text is cut does not matter as long as the frame itself survives, and any shorter cut is
  // a framing error, whether or not the device reported an error code.
  lemma CutFrame(s: seq<Byte>, k: nat)
    requires Framed(s) && k <= |s|
    ensures Consumed(s) <= |s|
    ensures ParseFrame(s[..k]) == (if k < Consumed(s) then Failure(ErrFraming) else ParseFrame(s))
  {
    hide Number, Checksum, Decode, EqualFold;
    var t := s[..k];
    if k >= Consumed(s) {
      assert t[..Consumed(s)] == s[..Consumed(s)];
      SameHead(s, t);
    } else if k >= 16 {
      SubSlice(s, t, k, 8, 12);
    }
  }

  // Whatever follows a frame leaves its result unchanged.
  lemma TrailingTextIgnored(s: seq<Byte>, rest: seq<Byte>)
    requires Framed(s)
    ensures ParseFrame(s + rest) == ParseFrame(s)
  {
    CutFrame(s, |s|);
    hide ParseFrame;
    PrefixSlice(s, rest, 0, Consumed(s));
    SameHead(s, s + rest);
  }

  lemma EncodeFrameLayout(ver: int, addr: int, cid1: int, cid2: int, info: seq<Byte>)
    requires 0 <= ver < 0x100 && 0 <= addr < 0x100 && 0 <= cid1 < 0x100 && 0 <= cid2 < 0x100
    ensures var s, b := EncodeFrame(ver, addr, cid1, cid2, info), Body(ver, addr, cid1, cid2, info);
            && s[0..2] == Hex2(ver) && s[2..4] == Hex2(addr) && s[4..6] == Hex2(cid1) && s[6..8] == Hex2(cid2)
            && s[8..12] == EncodeLength(2 * |info|) && s[12..12 + 2 * |info|] == Encode(info)
            && s[..12 + 2 * |info|] == b && s[12 + 2 * |info|..] == Checksum(b)
  {
  }

  // Every frame the device can send parses back to its fields, with the checksum verified; an error code is
  // reported as such.
  lemma ParseEncoded(ver: int, addr: int, cid1: int, cid2: int, info: seq<Byte>, rest: seq<Byte>)
    requires 0 <= ver < 0x100 && 0 <= addr < 0x100 && 0 <= cid1 < 0x100 && 0 <= cid2 < 0x100
    requires |info| <= MAX_INFO
    ensures ParseFrame(EncodeFrame(ver, addr, cid1, cid2, info) + rest)
            == if cid2 != RTN_OK then Failure(ErrBMS)
               else Success(Frame(ver, addr, cid1, cid2, info,
                                  Checksum(Body(ver, addr, cid1, cid2, info)), true))
  {
    hide Hex2, Hex4, Number, EncodeLength, Encode, Decode, Checksum, Sum, EqualFold;
    var s := EncodeFrame(ver, addr, cid1, cid2, info);
    EncodeFrameLayout(ver, addr, cid1, cid2, info);
    NumberHex2(ver);
    NumberHex2(addr);
    NumberHex2(cid1);
    NumberHex2(cid2);
    DecodeLength(2 * |info|);
    DecodeEncode(info);
    var c := Checksum(Body(ver, addr, cid1, cid2, info));
    EqualFoldClean(c, c);
    TrailingTextIgnored(s, rest);
  }

  // Whatever its checksum field says, a frame parses to its fields and its whole payload; a wrong checksum is flagged
  // and costs nothing else.
  lemma ParseBody(ver: int, addr: int, cid1: int, cid2: int, info: seq<Byte>, c: seq<Byte>, rest: seq<Byte>)
    requires 0 <= ver < 0x100 && 0 <= addr < 0x100 && 0 <= cid1 < 0x100 && 0 <= cid2 < 0x100
    requires |info| <= 2047 && |c| == 4 && IsClean(c)
    ensures ParseFrame(Body(ver, addr, cid1, cid2, info) + c + rest)
            == if cid2 != 0 then Failure(ErrBMS)
               else Success(Frame(ver, addr, cid1, 0, info, c, c == Checksum(Body(ver, addr, cid1, cid2, info))))
  {
    hide Hex2, Hex4, Number, EncodeLength, Encode, Decode, Checksum, Sum, EqualFold;
    var b := Body(ver, addr, cid1, cid2, info);
    var s, n := b + c, 2 * |info|;
    BodyLayout(ver, addr, cid1, cid2, info, c);
    NumberHex2(ver);
    NumberHex2(addr);
    NumberHex2(cid1);
    NumberHex2(cid2);
    DecodeLength(n);
    DecodeEncode(info);
    EqualFoldClean(Checksum(b), c);
    TrailingTextIgnored(s, rest);
  }

  lemma BodyLayout(ver: int, addr: int, cid1: int, cid2: int, info: seq<Byte>, c: seq<Byte>)
    requires 0 <= ver < 0x100 && 0 <= addr < 0x100 && 0 <= cid1 < 0x100 && 0 <= cid2 < 0x100 && |c| == 4
    ensures var b, n := Body(ver, addr, cid1, cid2, info), 2 * |info|;
            var s := b + c;
            && s[0..2] == Hex2(ver) && s[2..4] == Hex2(addr) && s[4..6] == Hex2(cid1) && s[6..8] == Hex2(cid2)
            && s[8..12] == EncodeLength(n) && s[12..12 + n] == Encode(info)
            && s[..12 + n] == b && s[12 + n..12 + n + 4] == c
  {
    hide Hex2, Encode, EncodeLength;
  }

  // ---- What the parser makes of any text ----

  // Twelve header digits, and the 12-bit count of INFO digits among them.
  predicate HasHeader(s: seq<Byte>) {
    |s| >= 16 && forall i :: 0 <= i < 12 ==> IsHex(s[i])
  }

  function DigitCount(s: seq<Byte>): (n: nat)
    requires HasHeader(s)
  {
    256 * ValueOf(s[9]) + 16 * ValueOf(s[10]) + ValueOf(s[11])
  }

  // The text holds a whole frame: an even number of INFO digits, all there, and room for the checksum.
  predicate Whole(s: seq<Byte>) {
    && HasHeader(s) && DigitCount(s) % 2 == 0 && |s| >= 16 + DigitCount(s)
    && forall i :: 12 <= i < 12 + DigitCount(s) ==> IsHex(s[i])
  }

  lemma SameDigits(s: seq<Byte>, a: nat, b: nat)
    requires a <= b <= |s|
    ensures AllHex(s[a..b]) <==> forall i :: a <= i < b ==> IsHex(s[i])
  {
    forall i | a <= i < b
      ensures s[a..b][i - a] == s[i]
    {
    }
  }

  lemma HeaderDigits(s: seq<Byte>)
    requires |s| >= 16
    ensures HasHeader(s)
            <==> AllHex(s[0..2]) && AllHex(s[2..4]) && AllHex(s[4..6]) && AllHex(s[6..8]) && AllHex(s[8..12])
    ensures HasHeader(s) ==> InfoHexLen(s) == DigitCount(s)
  {
    SameDigits(s, 0, 2);
    SameDigits(s, 2, 4);
    SameDigits(s, 4, 6);
    SameDigits(s, 6, 8);
    SameDigits(s, 8, 12);
    if HasHeader(s) {
      LowTwelveBits(s[8..12]);
    }
  }

  // Digits of any case equal upper-case ones up to case exactly when they are the same number.
  lemma FoldIffSameNumber(a: seq<Byte>, c: seq<Byte>)
    requires |a| == 4 == |c| && IsClean(a)
    ensures EqualFold(a, c) <==> AllHex(c) && Number(a) == Number(c)
  {
    hide Upper, ValueOf, Number, Digit;
    FourFolded(a, c);
    FourDigits(a);
    if AllHex(c) {
      FourDigits(c);
      SameFourDigits(ValueOf(a[0]), ValueOf(a[1]), ValueOf(a[2]), ValueOf(a[3]),
        ValueOf(c[0]), ValueOf(c[1]), ValueOf(c[2]), ValueOf(c[3]));
    }
  }

  lemma FourFolded(a: seq<Byte>, c: seq<Byte>)
    requires |a| == 4 == |c| && IsClean(a)
    ensures EqualFold(a, c) <==>
            AllHex(c) && ValueOf(a[0]) == ValueOf(c[0]) && ValueOf(a[1]) == ValueOf(c[1])
            && ValueOf(a[2]) == ValueOf(c[2]) && ValueOf(a[3]) == ValueOf(c[3])
  {
    FoldedDigit(a[0], c[0]);
    FoldedDigit(a[1], c[1]);
    FoldedDigit(a[2], c[2]);
    FoldedDigit(a[3], c[3]);
    hide Upper, ValueOf, Digit;
  }

  lemma SameFourDigits(a0: int, a1: int, a2: int, a3: int, c0: int, c1: int, c2: int, c3: int)
    requires 0 <= a1 < 16 && 0 <= a2 < 16 && 0 <= a3 < 16 && 0 <= c1 < 16 && 0 <= c2 < 16 && 0 <= c3 < 16
    ensures 0x1000 * a0 + 0x100 * a1 + 16 * a2 + a3 == 0x1000 * c0 + 0x100 * c1 + 16 * c2 + c3
            <==> a0 == c0 && a1 == c1 && a2 == c2 && a3 == c3
  {
  }

  lemma FoldedDigit(a: Byte, c: Byte)
    requires IsUpperHex(a)
    ensures Upper(a) == Upper(c) <==> IsHex(c) && ValueOf(a) == ValueOf(c)
  {
  }

  lemma FourDigits(s: seq<Byte>)
    requires |s| == 4 && AllHex(s)
    ensures Number(s) == 0x1000 * ValueOf(s[0]) + 0x100 * ValueOf(s[1]) + 16 * ValueOf(s[2]) + ValueOf(s[3])
  {
    hide ValueOf, Number;
    Number4(s);
    Number2(s[..2]);
    Number2(s[2..]);
  }

  // The whole outcome in plain terms: a text without a whole frame is a framing error, then a nonzero return code is
  // the device's error, and anything else gives the header bytes, every payload byte, the checksum field, and whether
  // that field cancels the ASCII sum before it.
  lemma ParseOutcome(s: seq<Byte>)
    ensures !Whole(s) ==> ParseFrame(s) == Failure(ErrFraming)
    ensures Whole(s) && !(ValueOf(s[6]) == 0 && ValueOf(s[7]) == 0) ==> ParseFrame(s) == Failure(ErrBMS)
    ensures Whole(s) && ValueOf(s[6]) == 0 && ValueOf(s[7]) == 0 ==>
              && ParseFrame(s).Success?
              && var f, n := ParseFrame(s).value, DigitCount(s);
              && f.ver == 16 * ValueOf(s[0]) + ValueOf(s[1]) && f.addr == 16 * ValueOf(s[2]) + ValueOf(s[3])
              && f.cid1 == 16 * ValueOf(s[4]) + ValueOf(s[5]) && f.cid2 == 0
              && |f.info| == n / 2
              && (forall i :: 0 <= i < n / 2 ==> f.info[i] == 16 * ValueOf(s[12 + 2 * i]) + ValueOf(s[13 + 2 * i]))
              && f.checksum == s[12 + n..16 + n]
              && (f.checksumOK <==> AllHex(f.checksum) && (Sum(s[..12 + n]) + Number(f.checksum)) % 0x1_0000 == 0)
  {
    hide Number, ValueOf, Checksum, Sum, EqualFold, Decode;
    if |s| >= 16 {
      HeaderDigits(s);
    }
    if HasHeader(s) && |s| >= 16 + DigitCount(s) {
      SameDigits(s, 12, 12 + DigitCount(s));
    }
    if Whole(s) {
      WholeOutcome(s);
    }
  }

  lemma WholeOutcome(s: seq<Byte>)
    requires Whole(s)
    ensures ParseFrame(s) == Failure(ErrBMS) <==> !(ValueOf(s[6]) == 0 && ValueOf(s[7]) == 0)
    ensures ValueOf(s[6]) == 0 && ValueOf(s[7]) == 0 ==>
              && ParseFrame(s).Success?
              && var f, n := ParseFrame(s).value, DigitCount(s);
              && f.ver == 16 * ValueOf(s[0]) + ValueOf(s[1]) && f.addr == 16 * ValueOf(s[2]) + ValueOf(s[3])
              && f.cid1 == 16 * ValueOf(s[4]) + ValueOf(s[5]) && f.cid2 == 0
              && |f.info| == n / 2
              && (forall i :: 0 <= i < n / 2 ==> f.info[i] == 16 * ValueOf(s[12 + 2 * i]) + ValueOf(s[13 + 2 * i]))
              && f.checksum == s[12 + n..16 + n]
              && (f.checksumOK <==> AllHex(f.checksum) && (Sum(s[..12 + n]) + Number(f.checksum)) % 0x1_0000 == 0)
  {
    hide Number, ValueOf, Checksum, Sum, EqualFold;
    var n := DigitCount(s);
    HeaderDigits(s);
    SameDigits(s, 12, 12 + n);
    Number2(s[0..2]);
    Number2(s[2..4]);
    Number2(s[4..6]);
    Number2(s[6..8]);
    SumCancels(s[..12 + n], s[12 + n..12 + n + 4]);
    PayloadBytes(s, n);
  }

  lemma SumCancels(body: seq<Byte>, c: seq<Byte>)
    requires |c| == 4
    ensures EqualFold(Checksum(body), c) <==> AllHex(c) && (Sum(body) + Number(c)) % 0x1_0000 == 0
  {
    hide Sum, Number, EqualFold, Hex4, Complement;
    FoldIffSameNumber(Checksum(body), c);
    NumberHex4(Complement(Sum(body)));
    if AllHex(c) {
      FourDigits(c);
      Residues(Number(c), Sum(body));
    }
  }

  lemma PayloadBytes(s: seq<Byte>, n: nat)
    requires n % 2 == 0 && |s| >= 16 + n && AllHex(s[12..12 + n])
    ensures forall i :: 0 <= i < n / 2 ==>
              && IsHex(s[12 + 2 * i]) && IsHex(s[13 + 2 * i])
              && Decode(s[12..12 + n])[i] == 16 * ValueOf(s[12 + 2 * i]) + ValueOf(s[13 + 2 * i])
  {
    hide ValueOf;
    var digits := s[12..12 + n];
    forall i | 0 <= i < n / 2
      ensures digits[2 * i] == s[12 + 2 * i] && digits[2 * i + 1] == s[13 + 2 * i]
    {
    }
  }

  // The check nibble of the LENGTH field, which the parser never looks at, fits the low 12 bits.
  predicate LengthNibbleOK(s: seq<Byte>) {
    |s| >= 12 && AllHex(s[8..12]) && s[8..12] == EncodeLength(InfoHexLen(s))
  }

  // Conversely, a verified frame with a consistent length nibble re-encodes to exactly the text it was read from.
  lemma ReencodeParsed(s: seq<Byte>)
    requires IsClean(s) && Verified(s) && LengthNibbleOK(s)
    ensures Consumed(s) <= |s|
    ensures var f := ParseFrame(s).value;
            && 0 <= f.ver < 0x100 && 0 <= f.addr < 0x100 && 0 <= f.cid1 < 0x100 && f.cid2 == RTN_OK
            && |f.info| <= MAX_INFO
            && EncodeFrame(f.ver, f.addr, f.cid1, f.cid2, f.info) == s[..Consumed(s)]
  {
    hide Hex2, Hex4, Number, EncodeLength, Encode, Decode, Checksum, Sum, EqualFold;
    var f, n := ParseFrame(s).value, InfoHexLen(s);
    Number2(s[0..2]);
    Number2(s[2..4]);
    Number2(s[4..6]);
    Number2(s[6..8]);
    EncodeDecode(s[12..12 + n]);
    assert Body(f.ver, f.addr, f.cid1, f.cid2, f.info) == s[..12 + n];
    EqualFoldClean(Checksum(s[..12 + n]), f.checksum);
    assert s[..12 + n] + f.checksum == s[..16 + n];
  }

  ghost predicate StartsWithFrame(s: seq<Byte>) {
    exists ver: Byte, addr: Byte, cid1: Byte, info: seq<Byte> ::
      |info| <= MAX_INFO && EncodeFrame(ver, addr, cid1, RTN_OK, info) <= s
  }

  // The clean texts that verify with a consistent length nibble are exactly those that start with a frame the
  // device can send.
  lemma VerifiedIffEncoded(s: seq<Byte>)
    requires IsClean(s)
    ensures Verified(s) && LengthNibbleOK(s) <==> StartsWithFrame(s)
  {
    hide Hex2, Hex4, Number, Encode, Checksum, Sum, EqualFold, ParseFrame, EncodeFrame;
    if StartsWithFrame(s) {
      var ver: Byte, addr: Byte, cid1: Byte, info: seq<Byte> :|
        |info| <= MAX_INFO && EncodeFrame(ver, addr, cid1, RTN_OK, info) <= s;
      var e := EncodeFrame(ver, addr, cid1, RTN_OK, info);
      assert s == e + s[|e|..];
      ParseEncoded(ver, addr, cid1, RTN_OK, info, s[|e|..]);
      EncodeFrameLayout(ver, addr, cid1, RTN_OK, info);
      DecodeLength(2 * |info|);
      assert s[8..12] == e[8..12];
    }
    if Verified(s) && LengthNibbleOK(s) {
      ReencodeParsed(s);
      var f := ParseFrame(s).value;
      var ver: Byte, addr: Byte, cid1: Byte := f.ver, f.addr, f.cid1;
      assert EncodeFrame(ver, addr, cid1, RTN_OK, f.info) <= s;
    }
  }

  // ---- What the checksum detects ----

  // Replacing one digit of a verified frame by another is always noticed, except in the three low length digits.
  lemma SingleDigitDetected(s: seq<Byte>, i: nat, d: Byte)
    requires IsClean(s) && Verified(s) && IsUpperHex(d)
    requires i < Consumed(s) && i !in {9, 10, 11} && d != s[i]
    ensures !Verified(s[i := d])
  {
    hide Hex2, Hex4, Number, EncodeLength, Encode, Decode, Checksum, Sum, EqualFold;
    var t, n := s[i := d], InfoHexLen(s);
    LowTwelveBits(s[8..12]);
    LowTwelveBits(t[8..12]);
    assert InfoHexLen(t) == n;
    var body, field := s[..12 + n], s[12 + n..16 + n];
    var body', field' := t[..12 + n], t[12 + n..16 + n];
    EqualFoldClean(Checksum(body), field);
    EqualFoldClean(Checksum(body'), field');
    assert Checksum(body) == field;
    if i < 12 + n {
      assert body' == body[i := d] && field' == field;
      SumUpdate(body, i, d);
      SameChecksum(body, body');
    } else {
      assert body' == body && field'[i - 12 - n] == d != field[i - 12 - n];
    }
  }

  function Repeat(c: Byte, n: nat): (s: seq<Byte>)
    ensures |s| == n && forall i :: 0 <= i < n ==> s[i] == c
  {
    seq(n, _ => c)
  }

  lemma EncodeAppend(a: seq<Byte>, b: seq<Byte>)
    ensures Encode(a + b) == Encode(a) + Encode(b)
  {
  }

  // The INFO length whose hex count has its only nonzero digit at position p of a frame.
  function CountAt(p: nat): nat {
    if p == 9 then 128 else if p == 10 then 8 else 2
  }

  lemma ZeroedLength(p: nat)
    requires p in {9, 10, 11}
    ensures Number(EncodeLength(2 * CountAt(p))[p - 8 := Digit(0)]) % 0x1000 == 0
  {
    hide Number, EncodeLength, Digit, ValueOf;
    var f := EncodeLength(2 * CountAt(p));
    DecodeLength(2 * CountAt(p));
    LowTwelveBits(f);
    LowTwelveBits(f[p - 8 := Digit(0)]);
  }

  // None of the three low length digits is protected: under every pack header there is a well-formed response that
  // one changed digit there turns into a different response, which verifies just as well.
  lemma LengthDigitUndetected(ver: int, addr: int, cid1: int, p: nat) returns (info: seq<Byte>)
    requires 0 <= ver < 0x100 && 0 <= addr < 0x100 && 0 <= cid1 < 0x100 && p in {9, 10, 11}
    ensures info != [] && |info| <= MAX_INFO
    ensures var s := EncodeFrame(ver, addr, cid1, RTN_OK, info);
            && Verified(s) && ParseFrame(s).value.info == info
            && Verified(s[p := Digit(0)]) && ParseFrame(s[p := Digit(0)]).value.info == []
  {
    hide Hex2, Hex4, Number, EncodeLength, Encode, Decode, Checksum, Sum, EqualFold, ValueOf, Digit;
    var length := EncodeLength(2 * CountAt(p))[p - 8 := Digit(0)];
    var head := Hex2(ver) + Hex2(addr) + Hex2(cid1) + Hex2(RTN_OK) + length;
    var spare := Repeat(0, CountAt(p) - 2);
    info := Decode(Checksum(head)) + spare;
    EncodeAppend(Decode(Checksum(head)), spare);
    EncodeDecode(Checksum(head));
    var s := EncodeFrame(ver, addr, cid1, RTN_OK, info);
    EncodeFrameLayout(ver, addr, cid1, RTN_OK, info);
    assert s + [] == s;
    ParseEncoded(ver, addr, cid1, RTN_OK, info, []);
    var t := s[p := Digit(0)];
    assert t[0..2] == s[0..2] && t[2..4] == s[2..4] && t[4..6] == s[4..6] && t[6..8] == s[6..8];
    NumberHex2(RTN_OK);
    assert t[8..12] == length;
    ZeroedLength(p);
    assert InfoHexLen(t) == 0;
    assert t[..12] == head;
    assert t[12..16] == s[12..16] == s[12..12 + 2 * |info|][..4] == Checksum(head);
    EqualFoldClean(Checksum(head), Checksum(head));
    assert t[12..12] == [];
  }

  // The verified frame at the head of s verifies again with another digit d in position i.
  predicate Unnoticed(s: seq<Byte>, i: nat, d: Byte) {
    IsClean(s) && Verified(s) && IsUpperHex(d) && i < Consumed(s) && d != s[i] && Verified(s[i := d])
  }

  // The positions where a replaced digit can go unnoticed are exactly those of the three low length digits.
  lemma UnnoticedIff(i: nat)
    ensures (exists s: seq<Byte>, d: Byte :: Unnoticed(s, i, d)) <==> i in {9, 10, 11}
  {
    if i in {9, 10, 11} {
      var s, d := ShortenedFrame(i);
      assert Unnoticed(s, i, d);
    }
    if s: seq<Byte>, d: Byte :| Unnoticed(s, i, d) {
      if i !in {9, 10, 11} {
        SingleDigitDetected(s, i, d);
      }
    }
  }

  lemma ShortenedFrame(i: nat) returns (s: seq<Byte>, d: Byte)
    requires i in {9, 10, 11}
    ensures Unnoticed(s, i, d)
  {
    hide EncodeFrame, ParseFrame, InfoHexLen;
    var info := LengthDigitUndetected(0, 0, 0, i);
    s, d := EncodeFrame(0, 0, 0, RTN_OK, info), Digit(0);
    SameDigit(s, i);
  }

  lemma SameDigit(s: seq<Byte>, i: nat)
    requires i < |s|
    ensures s[i := s[i]] == s
  {
  }

  // s and t are the same text outside the INFO payload of s.
  predicate SameOutsideInfo(s: seq<Byte>, t: seq<Byte>)
    requires |s| >= 12 && AllHex(s[8..12])
  {
    |t| == |s| && forall i :: 0 <= i < |s| && !(12 <= i < 12 + InfoHexLen(s)) ==> t[i] == s[i]
  }

  function Diffs(a: seq<Byte>, b: seq<Byte>): nat
    requires |a| == |b|
  {
    if a == [] then 0
    else Diffs(a[..|a| - 1], b[..|b| - 1]) + if a[|a| - 1] != b[|b| - 1] then 1 else 0
  }

  lemma {:induction false} SumWithinDiffs(a: seq<Byte>, b: seq<Byte>)
    requires |a| == |b| && IsClean(a) && IsClean(b)
    ensures -22 * Diffs(a, b) <= Sum(a) - Sum(b) <= 22 * Diffs(a, b)
  {
    if a != [] {
      SumWithinDiffs(a[..|a| - 1], b[..|b| - 1]);
    }
  }

  // A rewritten INFO payload is always parsed, and verified exactly when the ASCII sum moved by a multiple of 2^16.
  lemma RewrittenInfo(s: seq<Byte>, t: seq<Byte>)
    requires IsClean(s) && IsClean(t) && Verified(s) && SameOutsideInfo(s, t)
    ensures ParseFrame(t).Success?
    ensures ParseFrame(t).value.(checksumOK := true) ==
              ParseFrame(s).value.(info := Decode(t[12..12 + InfoHexLen(s)]))
    ensures Verified(t) <==> (Sum(t[..12 + InfoHexLen(s)]) - Sum(s[..12 + InfoHexLen(s)])) % 0x1_0000 == 0
  {
    hide Hex2, Hex4, Number, EncodeLength, Encode, Decode, Checksum, Sum, EqualFold;
    var n := InfoHexLen(s);
    assert t[0..2] == s[0..2] && t[2..4] == s[2..4] && t[4..6] == s[4..6] && t[6..8] == s[6..8];
    assert t[8..12] == s[8..12];
    assert t[12 + n..16 + n] == s[12 + n..16 + n];
    EqualFoldClean(Checksum(s[..12 + n]), s[12 + n..16 + n]);
    EqualFoldClean(Checksum(t[..12 + n]), t[12 + n..16 + n]);
    SameChecksum(t[..12 + n], s[..12 + n]);
  }

  // Up to 2978 replaced INFO digits go unnoticed only if the ASCII sum is unchanged.
  lemma ManyDigitsDetected(s: seq<Byte>, t: seq<Byte>)
    requires IsClean(s) && IsClean(t) && Verified(s) && SameOutsideInfo(s, t)
    requires Diffs(s[..12 + InfoHexLen(s)], t[..12 + InfoHexLen(s)]) <= 2978
    ensures Verified(t) <==> Sum(t[..12 + InfoHexLen(s)]) == Sum(s[..12 + InfoHexLen(s)])
  {
    hide Sum, Diffs, Number;
    RewrittenInfo(s, t);
    SumWithinDiffs(s[..12 + InfoHexLen(s)], t[..12 + InfoHexLen(s)]);
  }

  lemma {:induction false} RepeatSums(c: Byte, d: Byte, n: nat)
    ensures Sum(Repeat(c, n)) == n * c
    ensures Diffs(Repeat(c, n), Repeat(d, n)) == if c == d then 0 else n
  {
    if n > 0 {
      assert Repeat(c, n)[..n - 1] == Repeat(c, n - 1);
      assert Repeat(d, n)[..n - 1] == Repeat(d, n - 1);
      RepeatSums(c, d, n - 1);
    }
  }

  lemma {:induction false} DiffsAppend(a: seq<Byte>, b: seq<Byte>, c: seq<Byte>, d: seq<Byte>)
    requires |a| == |b| && |c| == |d|
    ensures Diffs(a + c, b + d) == Diffs(a, b) + Diffs(c, d)
  {
    if c == [] {
      assert a + c == a && b + d == b;
    } else {
      var k := |c| - 1;
      assert (a + c)[..|a + c| - 1] == a + c[..k] && (b + d)[..|b + d| - 1] == b + d[..k];
      DiffsAppend(a, b, c[..k], d[..k]);
    }
  }

  lemma {:induction false} DiffsSelf(a: seq<Byte>)
    ensures Diffs(a, a) == 0
  {
    if a != [] {
      DiffsSelf(a[..|a| - 1]);
    }
  }

  lemma ZerosAgainstRewritten(n: nat)
    requires n == 4094
    ensures var zeros, others := Repeat(48, n), Repeat(70, 2978) + ([68] + Repeat(48, 1115));
            && Sum(others) == Sum(zeros) + 0x1_0000 && Diffs(zeros, others) == 2979
  {
    hide Repeat;
    assert Repeat(48, n) == Repeat(48, 2978) + ([48] + Repeat(48, 1115));
    assert [48] == Repeat(48, 1) && [68] == Repeat(68, 1);
    RepeatSums(48, 70, 2978);
    RepeatSums(70, 48, 2978);
    RepeatSums(48, 68, 1);
    RepeatSums(68, 48, 1);
    RepeatSums(48, 48, 1115);
    SumAppend(Repeat(48, 2978), [48] + Repeat(48, 1115));
    SumAppend([48], Repeat(48, 1115));
    SumAppend(Repeat(70, 2978), [68] + Repeat(48, 1115));
    SumAppend([68], Repeat(48, 1115));
    DiffsAppend(Repeat(48, 2978), Repeat(70, 2978), [48] + Repeat(48, 1115), [68] + Repeat(48, 1115));
    DiffsAppend([48], [68], Repeat(48, 1115), Repeat(48, 1115));
  }

  lemma EncodeZeros(n: nat)
    ensures Encode(Repeat(0, n)) == Repeat(48, 2 * n)
  {
  }

  lemma ZeroInfoFrame(ver: int, addr: int, cid1: int) returns (s: seq<Byte>)
    requires 0 <= ver < 0x100 && 0 <= addr < 0x100 && 0 <= cid1 < 0x100
    ensures IsClean(s) && Verified(s) && |s| == 4110 && InfoHexLen(s) == 4094
    ensures s[12..4106] == Repeat(48, 4094)
  {
    hide Repeat, Hex2, Hex4, Number, EncodeLength, Encode, Checksum, Sum, EqualFold, ValueOf;
    var info := Repeat(0, MAX_INFO);
    s := EncodeFrame(ver, addr, cid1, RTN_OK, info);
    EncodeFrameLayout(ver, addr, cid1, RTN_OK, info);
    ParseEncoded(ver, addr, cid1, RTN_OK, info, []);
    assert s + [] == s;
    DecodeLength(2 * MAX_INFO);
    EncodeZeros(MAX_INFO);
  }

  // 2978 is the exact limit: 2979 digits can be replaced, and the sum moved, without the checksum noticing.
  lemma ManyDigitsBoundIsTight(ver: int, addr: int, cid1: int) returns (s: seq<Byte>, t: seq<Byte>)
    requires 0 <= ver < 0x100 && 0 <= addr < 0x100 && 0 <= cid1 < 0x100
    ensures IsClean(s) && IsClean(t) && Verified(s) && Verified(t) && SameOutsideInfo(s, t)
    ensures Diffs(s[..12 + InfoHexLen(s)], t[..12 + InfoHexLen(s)]) == 2979
    ensures Sum(t[..12 + InfoHexLen(s)]) != Sum(s[..12 + InfoHexLen(s)])
  {
    hide Repeat, Number, Verified, Sum, Diffs, ValueOf;
    s := ZeroInfoFrame(ver, addr, cid1);
    var head, zeros := s[..12], s[12..4106];
    var others := Repeat(70, 2978) + ([68] + Repeat(48, 1115));
    t := head + others + s[4106..];
    assert s[..4106] == head + zeros && t[..4106] == head + others;
    ZerosAgainstRewritten(4094);
    SumAppend(head, zeros);
    SumAppend(head, others);
    DiffsSelf(head);
    DiffsAppend(head, head, zeros, others);
    RewrittenInfo(s, t);
  }
}
