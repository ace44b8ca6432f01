/** ASCII-hex text as the wire carries it: digits, big-endian numbers, and the pairwise byte encoding. */
module Hex {
  import opened Sample

  predicate IsUpperHex(c: Byte) {
    48 <= c <= 57 || 65 <= c <= 70
  }

  predicate IsHex(c: Byte) {
    IsUpperHex(c) || 97 <= c <= 102
  }

  predicate AllHex(s: seq<Byte>) {
    forall i :: 0 <= i < |s| ==> IsHex(s[i])
  }

  // The form cleanHexPayload produces and parseFrame documents: upper-case hex digits only.
  predicate IsClean(s: seq<Byte>) {
    forall i :: 0 <= i < |s| ==> IsUpperHex(s[i])
  }

  function Digit(v: int): (c: Byte)
    requires 0 <= v < 16
    ensures IsUpperHex(c) && ValueOf(c) == v
  {
    if v < 10 then 48 + v else 55 + v
  }

  function ValueOf(c: Byte): (v: int)
    requires IsHex(c)
    ensures 0 <= v < 16
    ensures IsUpperHex(c) ==> (if v < 10 then 48 + v else 55 + v) == c
  {
    if c <= 57 then c - 48 else if c <= 70 then c - 55 else c - 87
  }

  // Both cases of a letter fold to the upper one; every other byte is left alone.
  function Upper(c: Byte): Byte {
    if 97 <= c <= 122 then c - 32 else c
  }

  predicate EqualFold(a: seq<Byte>, b: seq<Byte>) {
    |a| == |b| && forall i :: 0 <= i < |a| ==> Upper(a[i]) == Upper(b[i])
  }

  // strconv.ParseUint(s, 16, _) on the two- and four-digit fields of a frame.
  function Number(s: seq<Byte>): (n: nat)
    requires AllHex(s)
  {
    if s == [] then 0 else 16 * Number(s[..|s| - 1]) + ValueOf(s[|s| - 1])
  }

  function Hex2(n: int): (s: seq<Byte>)
    requires 0 <= n < 0x100
    ensures |s| == 2 && IsClean(s)
  {
    [Digit(n / 16), Digit(n % 16)]
  }

  function Hex4(n: int): (s: seq<Byte>)
    requires 0 <= n < 0x1_0000
    ensures |s| == 4 && IsClean(s)
  {
    Hex2(n / 0x100) + Hex2(n % 0x100)
  }

  lemma Number2(s: seq<Byte>)
    requires |s| == 2 && AllHex(s)
    ensures Number(s) == 16 * ValueOf(s[0]) + ValueOf(s[1])
    ensures IsClean(s) ==> Hex2(Number(s)) == s
  {
    NumberOfTwo(s);
    hide Number;
    var a, b := ValueOf(s[0]), ValueOf(s[1]);
    assert (16 * a + b) / 16 == a && (16 * a + b) % 16 == b;
  }

  lemma NumberOfTwo(s: seq<Byte>)
    requires |s| == 2 && AllHex(s)
    ensures Number(s) == 16 * ValueOf(s[0]) + ValueOf(s[1])
  {
    hide ValueOf;
    assert s[..1][..0] == [] && s[..1][0] == s[0];
    assert Number(s[..1]) == ValueOf(s[0]);
  }

  lemma NumberSplit(s: seq<Byte>)
    requires |s| == 4 && AllHex(s)
    ensures Number(s) == 0x100 * Number(s[..2]) + Number(s[2..])
  {
    Number2(s[2..]);
    assert s[..3][..2] == s[..2];
    assert Number(s[..3]) == 16 * Number(s[..2]) + ValueOf(s[2]);
  }

  lemma Number4(s: seq<Byte>)
    requires |s| == 4 && AllHex(s)
    ensures Number(s) == 0x100 * Number(s[..2]) + Number(s[2..])
    ensures Number(s[..2]) < 0x100 && Number(s[2..]) < 0x100
    ensures IsClean(s) ==> Hex4(Number(s)) == s
  {
    NumberSplit(s);
    var hi, lo := s[..2], s[2..];
    Number2(hi);
    Number2(lo);
    var a, b := Number(hi), Number(lo);
    assert (0x100 * a + b) / 0x100 == a && (0x100 * a + b) % 0x100 == b;
    assert s == hi + lo;
  }

  lemma NumberHex2(n: int)
    requires 0 <= n < 0x100
    ensures Number(Hex2(n)) == n
  {
    Number2(Hex2(n));
  }

  lemma NumberHex4(n: int)
    requires 0 <= n < 0x1_0000
    ensures Number(Hex4(n)) == n
  {
    var s := Hex4(n);
    assert s[..2] == Hex2(n / 0x100) && s[2..] == Hex2(n % 0x100);
    NumberHex2(n / 0x100);
    NumberHex2(n % 0x100);
    Number4(s);
  }

  // %02X over every byte of a payload.
  function Encode(bytes: seq<Byte>): (s: seq<Byte>)
    ensures |s| == 2 * |bytes| && IsClean(s)
  {
    seq(2 * |bytes|, i requires 0 <= i < 2 * |bytes| =>
      if i % 2 == 0 then Digit(bytes[i / 2] / 16) else Digit(bytes[i / 2] % 16))
  }

  // hex.DecodeString.
  function Decode(s: seq<Byte>): (bytes: seq<Byte>)
    requires AllHex(s) && |s| % 2 == 0
    ensures |bytes| == |s| / 2
  {
    seq(|s| / 2, i requires 0 <= i < |s| / 2 => 16 * ValueOf(s[2 * i]) + ValueOf(s[2 * i + 1]))
  }

  lemma DecodeEncode(bytes: seq<Byte>)
    ensures Decode(Encode(bytes)) == bytes
  {
    var s := Encode(bytes);
    hide Digit, ValueOf;
    forall i | 0 <= i < |bytes|
      ensures Decode(s)[i] == bytes[i]
    {
      assert s[2 * i] == Digit(bytes[i] / 16);
      assert s[2 * i + 1] == Digit(bytes[i] % 16);
    }
  }

  lemma EncodeDecode(s: seq<Byte>)
    requires IsClean(s) && |s| % 2 == 0
    ensures Encode(Decode(s)) == s
  {
    var b := Decode(s);
    forall i | 0 <= i < |s|
      ensures Encode(b)[i] == s[i]
    {
      var h := i / 2;
      assert b[h] == 16 * ValueOf(s[2 * h]) + ValueOf(s[2 * h + 1]);
      assert b[h] / 16 == ValueOf(s[2 * h]) && b[h] % 16 == ValueOf(s[2 * h + 1]);
      assert i == 2 * h || i == 2 * h + 1;
    }
  }

  // ---- Slices ----

  lemma Slice(s: seq<Byte>, a: nat, b: nat, c: nat, d: nat)
    requires a <= b <= |s| && c <= d <= b - a
    ensures s[a..b][c..d] == s[a + c..a + d]
  {
    forall i | 0 <= i < d - c
      ensures s[a..b][c..d][i] == s[a + c..a + d][i]
    {
      assert s[a..b][c + i] == s[a + (c + i)];
    }
  }

  lemma PrefixSlice(s: seq<Byte>, rest: seq<Byte>, a: nat, b: nat)
    requires a <= b <= |s|
    ensures (s + rest)[a..b] == s[a..b]
  {
    forall i | 0 <= i < b - a
      ensures (s + rest)[a..b][i] == s[a..b][i]
    {
      assert (s + rest)[a + i] == s[a + i];
    }
  }

  // Two texts that agree on a range agree on every part of it.
  lemma SubSlice(s: seq<Byte>, t: seq<Byte>, n: nat, a: nat, b: nat)
    requires a <= b <= n <= |s| && n <= |t| && s[..n] == t[..n]
    ensures s[a..b] == t[a..b]
  {
    assert s[..n] + s[n..] == s && t[..n] + t[n..] == t;
    PrefixSlice(s[..n], s[n..], a, b);
    PrefixSlice(t[..n], t[n..], a, b);
  }
}
