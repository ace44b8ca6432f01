/**
 * The serial client (internal/bms/client.go): reading up to EOI, cleaning the text, and the two-attempt poll.
 * The port is an arbitrary script: what each setup call does, and what every read before the deadline returns.
 */
module Client {
  import opened Wrappers
  import opened Sample
  import opened Hex
  import opened Frame
  import opened Analog

  const ANALOG_ATTEMPTS := 2

  // One port read: bytes (none when the short per-read timeout passed), or an error from the driver.
  datatype Read = Data(bytes: seq<Byte>) | ReadError

  // ---- Reading up to EOI ----

  function IndexOf(s: seq<Byte>, b: Byte): (r: Option<nat>)
    ensures r.None? <==> b !in s
    ensures r.Some? ==> r.value < |s| && s[r.value] == b && b !in s[..r.value]
  {
    if s == [] then None
    else if s[0] == b then Some(0)
    else
      match IndexOf(s[1..], b)
      case None => None
      case Some(i) =>
        assert s[..i + 1] == [s[0]] + s[1..][..i];
        Some(i + 1)
  }

  // Everything received before the first driver error, as one stream.
  function Stream(script: seq<Read>): seq<Byte> {
    if script == [] || script[0].ReadError? then [] else script[0].bytes + Stream(script[1..])
  }

  function ReadSpec(script: seq<Read>): (seq<Byte>, Option<BmsError>) {
    match IndexOf(Stream(script), EOI)
    case Some(i) => (Stream(script)[..i], None)
    case None => (Stream(script), Some(if ReadError in script then ErrPort else ErrTimeout))
  }

  lemma FirstIndex(s: seq<Byte>, b: Byte, i: nat)
    requires i < |s| && s[i] == b && b !in s[..i]
    ensures IndexOf(s, b) == Some(i)
  {
  }

  // Depends on the stream alone, not on how it was cut into chunks or how often a read came back empty.
  method ReadUntilEOI(script: seq<Read>) returns (rx: seq<Byte>, err: Option<BmsError>)
    ensures (rx, err) == ReadSpec(script)
  {
    rx := [];
    var k := 0;
    while k < |script|
      invariant k <= |script|
      invariant rx + Stream(script[k..]) == Stream(script)
      invariant EOI !in rx
      invariant ReadError !in script[..k]
    {
      var read := script[k];
      assert script[k..][1..] == script[k + 1..];
      k := k + 1;
      if read.ReadError? {
        assert rx == Stream(script);
        return rx, Some(ErrPort);
      }
      if read.bytes == [] {
        continue;
      }
      ghost var before := rx;
      match IndexOf(read.bytes, EOI) {
        case Some(i) =>
          rx := rx + read.bytes[..i];
          assert Stream(script)[..|rx|] == rx;
          assert Stream(script)[|rx|] == read.bytes[i];
          FirstIndex(Stream(script), EOI, |rx|);
          return rx, None;
        case None =>
      }
      rx := rx + read.bytes;
      assert before + (read.bytes + Stream(script[k..])) == rx + Stream(script[k..]);
    }
    assert rx == Stream(script);
    err := Some(ErrTimeout);
  }

  // ---- Cleaning ----

  function Kept(c: Byte): seq<Byte> {
    if IsUpperHex(c) then [c] else if 97 <= c <= 102 then [c - 32] else []
  }

  function HexOnly(s: seq<Byte>): (r: seq<Byte>)
    ensures IsClean(r)
  {
    if s == [] then [] else HexOnly(s[..|s| - 1]) + Kept(s[|s| - 1])
  }

  function AfterSOI(rx: seq<Byte>): seq<Byte> {
    match IndexOf(rx, SOI)
    case Some(i) => rx[i + 1..]
    case None => rx
  }

  lemma EmptyHex()
    ensures HexOnly([]) == []
  {
  }

  lemma HexOnlySnoc(s: seq<Byte>, i: nat)
    requires i < |s|
    ensures HexOnly(s[..i + 1]) == HexOnly(s[..i]) + Kept(s[i])
  {
    assert s[..i + 1][..i] == s[..i];
  }

  method CleanHexPayload(rx: seq<Byte>) returns (text: seq<Byte>)
    ensures text == HexOnly(AfterSOI(rx))
  {
    hide HexOnly, IndexOf;
    EmptyHex();
    var payload := rx;
    match IndexOf(rx, SOI) {
      case Some(i) => payload := rx[i + 1..];
      case None =>
    }
    text := [];
    for i := 0 to |payload|
      invariant text == HexOnly(payload[..i])
    {
      HexOnlySnoc(payload, i);
      var ch := payload[i];
      if (48 <= ch <= 57) || (65 <= ch <= 70) {
        text := text + [ch];
      } else if 97 <= ch <= 102 {
        text := text + [ch - 32];
      }
    }
    assert payload[..|payload|] == payload;
  }

  // The hex digits of body, in either case and with anything else in between, spell text.
  ghost predicate Spells(body: seq<Byte>, text: seq<Byte>)
    requires IsClean(text)
    decreases |body|
  {
    if body == [] then text == []
    else
      var n := |body| - 1;
      if IsHex(body[n])
      then text != [] && ValueOf(body[n]) == ValueOf(text[|text| - 1]) && Spells(body[..n], text[..|text| - 1])
      else Spells(body[..n], text)
  }

  // The cleaner recovers exactly the text a body spells.
  lemma {:induction false} CleanedIffSpelled(body: seq<Byte>, text: seq<Byte>)
    requires IsClean(text)
    ensures HexOnly(body) == text <==> Spells(body, text)
    decreases |body|
  {
    if body != [] {
      var n := |body| - 1;
      if IsHex(body[n]) {
        KeptDigit(body[n]);
        if text != [] {
          CleanedIffSpelled(body[..n], text[..|text| - 1]);
          SnocEqual(HexOnly(body[..n]), Kept(body[n])[0], text);
        }
      } else {
        CleanedIffSpelled(body[..n], text);
        assert HexOnly(body[..n]) + [] == HexOnly(body[..n]);
      }
    }
  }

  lemma {:induction false} HexOnlyAppend(a: seq<Byte>, b: seq<Byte>)
    ensures HexOnly(a + b) == HexOnly(a) + HexOnly(b)
  {
    if b == [] {
      assert a + b == a;
    } else {
      var k := |b| - 1;
      assert (a + b)[..|a + b| - 1] == a + b[..k];
      HexOnlyAppend(a, b[..k]);
    }
  }

  lemma {:induction false} HexOnlyClean(text: seq<Byte>)
    requires IsClean(text)
    ensures HexOnly(text) == text
  {
    if text != [] {
      HexOnlyClean(text[..|text| - 1]);
    }
  }

  // A text spells itself.
  lemma SpellsItself(text: seq<Byte>)
    requires IsClean(text)
    ensures Spells(text, text)
  {
    HexOnlyClean(text);
    CleanedIffSpelled(text, text);
  }

  lemma {:induction false} HexOnlyFolds(a: seq<Byte>, b: seq<Byte>)
    requires EqualFold(a, b)
    ensures HexOnly(a) == HexOnly(b)
  {
    if a != [] {
      var n := |a| - 1;
      HexOnlyFolds(a[..n], b[..n]);
      assert Upper(a[n]) == Upper(b[n]);
      KeptFolds(a[n], b[n]);
      hide Kept, Upper;
      assert HexOnly(a) == HexOnly(a[..n]) + Kept(a[n]);
      assert HexOnly(b) == HexOnly(b[..n]) + Kept(b[n]);
    }
  }

  lemma KeptFolds(c: Byte, d: Byte)
    requires Upper(c) == Upper(d)
    ensures Kept(c) == Kept(d)
  {
  }

  // Changing the case of letters changes nothing that a body spells.
  lemma SpellsInAnyCase(a: seq<Byte>, b: seq<Byte>, text: seq<Byte>)
    requires IsClean(text) && EqualFold(a, b)
    ensures Spells(a, text) <==> Spells(b, text)
  {
    HexOnlyFolds(a, b);
    CleanedIffSpelled(a, text);
    CleanedIffSpelled(b, text);
  }

  lemma {:induction false} HexOnlyJunk(junk: seq<Byte>)
    requires forall i :: 0 <= i < |junk| ==> !IsHex(junk[i])
    ensures HexOnly(junk) == []
  {
    if junk != [] {
      HexOnlyJunk(junk[..|junk| - 1]);
    }
  }

  // Nor do bytes that are no hex digits, wherever they are inserted.
  lemma SpellsThroughJunk(a: seq<Byte>, junk: seq<Byte>, b: seq<Byte>, text: seq<Byte>)
    requires IsClean(text) && forall i :: 0 <= i < |junk| ==> !IsHex(junk[i])
    ensures Spells(a + junk + b, text) <==> Spells(a + b, text)
  {
    HexOnlyJunk(junk);
    HexOnlyAppend(a, junk);
    HexOnlyAppend(a + junk, b);
    HexOnlyAppend(a, b);
    assert HexOnly(a) + [] == HexOnly(a);
    CleanedIffSpelled(a + junk + b, text);
    CleanedIffSpelled(a + b, text);
  }

  // A kept digit is the upper-case digit of the same value.
  lemma KeptDigit(c: Byte)
    requires IsHex(c)
    ensures |Kept(c)| == 1 && Kept(c)[0] == Digit(ValueOf(c))
    ensures forall d: Byte :: IsUpperHex(d) ==> (Kept(c)[0] == d <==> ValueOf(c) == ValueOf(d))
  {
  }

  lemma SnocEqual(s: seq<Byte>, c: Byte, t: seq<Byte>)
    requires t != []
    ensures s + [c] == t <==> s == t[..|t| - 1] && c == t[|t| - 1]
  {
    var n := |t| - 1;
    assert t == t[..n] + [t[n]];
    if s + [c] == t {
      assert (s + [c])[..|s|] == s;
    }
  }

  // ---- One exchange, and the poll ----

  // What the port does during one attempt, and the host clock should the attempt succeed.
  datatype Attempt = ResetFails | WriteFails | DrainFails | Answers(script: seq<Read>, now: int)

  function RxOf(a: Attempt): seq<Byte> {
    if a.Answers? then ReadSpec(a.script).0 else []
  }

  function AttemptSpec(a: Attempt): Result<PackSample, BmsError> {
    if !a.Answers? then Failure(ErrPort)
    else
      match ReadSpec(a.script)
      case (_, Some(e)) => Failure(e)
      case (rx, None) =>
        match ParseFrame(HexOnly(AfterSOI(rx)))
        case Failure(e) => Failure(e)
        case Success(f) =>
          match AnalogSpec(f.info)
          case Failure(e) => Failure(e)
          case Success(s) => Success(s.(ts := a.now))
  }

  method Exchange(a: Attempt) returns (rx: seq<Byte>, text: seq<Byte>, err: Option<BmsError>)
    ensures rx == RxOf(a)
    ensures !a.Answers? ==> err == Some(ErrPort)
    ensures a.Answers? ==> err == ReadSpec(a.script).1 && (err.None? ==> text == HexOnly(AfterSOI(rx)))
  {
    rx, text := [], [];
    match a {
      case ResetFails | WriteFails | DrainFails => err := Some(ErrPort);
      case Answers(script, _) =>
        rx, err := ReadUntilEOI(script);
        if err.None? {
          text := CleanHexPayload(rx);
        }
    }
  }

  // The first attempt that succeeds, else the result of the last one.
  function PollSpec(attempts: seq<Attempt>): Result<PackSample, BmsError>
    requires |attempts| == ANALOG_ATTEMPTS
  {
    if AttemptSpec(attempts[0]).Success? then AttemptSpec(attempts[0]) else AttemptSpec(attempts[1])
  }

  // One exchange and the decoding of what it brought.
  method Try(a: Attempt) returns (r: Result<PackSample, BmsError>, rx: seq<Byte>)
    ensures r == AttemptSpec(a) && rx == RxOf(a)
  {
    hide ReadSpec, HexOnly, AfterSOI, ParseFrame, AnalogSpec;
    var text, err;
    rx, text, err := Exchange(a);
    if err.Some? {
      return Failure(err.value), rx;
    }
    var f := ParseFrame(text);
    if f.Failure? {
      return Failure(f.error), rx;
    }
    var sample := ParseAnalog(f.value.info);
    if sample.Failure? {
      return Failure(sample.error), rx;
    }
    r := Success(sample.value.(ts := a.now));
  }

  method Poll(address: int, attempts: seq<Attempt>)
    returns (r: Result<PackSample, BmsError>, tx: seq<Byte>, rx: seq<Byte>)
    requires |attempts| == ANALOG_ATTEMPTS
    ensures r == PollSpec(attempts)
    ensures tx == BuildAnalogRequest(address)
    ensures rx == RxOf(if AttemptSpec(attempts[0]).Success? then attempts[0] else attempts[1])
  {
    hide AttemptSpec, RxOf, BuildAnalogRequest;
    tx := BuildAnalogRequest(address);
    rx := [];
    r := Failure(ErrPort);
    for attempt := 0 to ANALOG_ATTEMPTS
      invariant attempt > 0 ==> r.Failure? && r == AttemptSpec(attempts[attempt - 1])
      invariant attempt > 0 ==> rx == RxOf(attempts[attempt - 1])
      invariant attempt > 1 ==> AttemptSpec(attempts[0]).Failure?
    {
      r, rx := Try(attempts[attempt]);
      if r.Failure? {
        continue;
      }
      return r, tx, rx;
    }
  }

  // ---- End to end ----

  // A poll returns plausible samples only, whatever the port delivers.
  lemma PolledIsPlausible(attempts: seq<Attempt>)
    requires |attempts| == ANALOG_ATTEMPTS && PollSpec(attempts).Success?
    ensures Plausible(PollSpec(attempts).value)
  {
    hide ReadSpec, HexOnly, ParseFrame, AnalogSpec;
    var a := if AttemptSpec(attempts[0]).Success? then attempts[0] else attempts[1];
    var info := ParseFrame(HexOnly(AfterSOI(ReadSpec(a.script).0))).value.info;
    DecodedIsPlausible(info);
  }

  // The reads deliver line noise, SOI, a body that spells the text, EOI, and anything after that.
  ghost predicate Delivers(script: seq<Read>, noise: seq<Byte>, body: seq<Byte>, text: seq<Byte>)
    requires IsClean(text)
  {
    && SOI !in noise && EOI !in noise && EOI !in body
    && Spells(body, text)
    && noise + [SOI] + body + [EOI] <= Stream(script)
  }

  lemma DeliveredText(script: seq<Read>, noise: seq<Byte>, body: seq<Byte>, text: seq<Byte>)
    requires IsClean(text) && Delivers(script, noise, body, text)
    ensures ReadSpec(script) == (noise + [SOI] + body, None)
    ensures HexOnly(AfterSOI(noise + [SOI] + body)) == text
  {
    CleanedIffSpelled(body, text);
    var stream, rx := Stream(script), noise + [SOI] + body;
    assert stream[..|rx| + 1] == rx + [EOI];
    assert stream[..|rx|] == rx && stream[|rx|] == EOI;
    FirstIndex(stream, EOI, |rx|);
    assert rx[..|noise|] == noise;
    FirstIndex(rx, SOI, |noise|);
    assert rx[|noise| + 1..] == body;
  }

  // The text a device sends for a sample, with these checksum digits and this text after it.
  ghost function FrameText(s: PackSample, t: nat, ver: Byte, addr: Byte, cid1: Byte, c: seq<Byte>,
                           extra: seq<Byte>): (text: seq<Byte>)
    requires Encodable(s, t) && |c| == 4 && IsClean(c) && IsClean(extra)
    ensures IsClean(text)
  {
    Body(ver, addr, cid1, 0, EncodeAnalog(s, t)) + c + extra
  }

  // The checksum digits that belong to it.
  ghost function RightDigits(s: PackSample, t: nat, ver: Byte, addr: Byte, cid1: Byte): (c: seq<Byte>)
    requires Encodable(s, t)
    ensures |c| == 4 && IsClean(c)
  {
    Checksum(Body(ver, addr, cid1, 0, EncodeAnalog(s, t)))
  }

  // The whole receive path undoes the device: whatever the chunking, the noise before SOI, the lower-case digits
  // and non-hex bytes inside the frame, the checksum digits and the bytes after EOI, the attempt yields exactly the
  // encoded sample. The frame counts as verified exactly with the right checksum digits.
  lemma WireRoundTrip(s: PackSample, t: nat, ver: Byte, addr: Byte, cid1: Byte, c: seq<Byte>, extra: seq<Byte>,
                      script: seq<Read>, noise: seq<Byte>, body: seq<Byte>, now: int)
    requires Encodable(s, t) && |c| == 4 && IsClean(c) && IsClean(extra)
    requires Delivers(script, noise, body, FrameText(s, t, ver, addr, cid1, c, extra))
    ensures AttemptSpec(Answers(script, now)) == Success(s.(ts := now))
    ensures Verified(HexOnly(AfterSOI(ReadSpec(script).0))) <==> c == RightDigits(s, t, ver, addr, cid1)
  {
    hide Encodable, AnalogSpec, EncodeAnalog, ParseFrame, HexOnly, AfterSOI, ReadSpec, Stream, Body, Checksum;
    var info := EncodeAnalog(s, t);
    DeliveredText(script, noise, body, FrameText(s, t, ver, addr, cid1, c, extra));
    EncodableFits(s, t);
    ParseBody(ver, addr, cid1, 0, info, c, extra);
    AnalogRoundTrip(s, t, []);
    assert info + [] == info;
  }

  lemma EncodableFits(s: PackSample, t: nat)
    requires Encodable(s, t)
    ensures |EncodeAnalog(s, t)| <= MAX_INFO
  {
    hide Labelled, EncodeAnalog;
  }

  // A poll over such an exchange returns the sample on the first attempt, and on the second after any failed first.
  lemma PollRoundTrip(s: PackSample, t: nat, ver: Byte, addr: Byte, cid1: Byte, c: seq<Byte>, extra: seq<Byte>,
                      attempts: seq<Attempt>, k: nat, noise: seq<Byte>, body: seq<Byte>)
    requires Encodable(s, t) && |c| == 4 && IsClean(c) && IsClean(extra)
    requires |attempts| == ANALOG_ATTEMPTS && k < ANALOG_ATTEMPTS && attempts[k].Answers?
    requires k == 1 ==> AttemptSpec(attempts[0]).Failure?
    requires Delivers(attempts[k].script, noise, body, FrameText(s, t, ver, addr, cid1, c, extra))
    ensures PollSpec(attempts) == Success(s.(ts := attempts[k].now))
  {
    hide Encodable, AnalogSpec, EncodeAnalog, ParseFrame, FrameText, Delivers, AttemptSpec, ReadSpec, HexOnly,
         RightDigits, Verified;
    WireRoundTrip(s, t, ver, addr, cid1, c, extra, attempts[k].script, noise, body, attempts[k].now);
  }

  // The plain instance: nothing before SOI, the frame in upper case, nothing in between, in any chunks.
  lemma PlainRoundTrip(s: PackSample, t: nat, ver: Byte, addr: Byte, cid1: Byte, script: seq<Read>, now: int)
    requires Encodable(s, t)
    requires [SOI] + EncodeFrame(ver, addr, cid1, RTN_OK, EncodeAnalog(s, t)) + [EOI] <= Stream(script)
    ensures AttemptSpec(Answers(script, now)) == Success(s.(ts := now))
  {
    hide Encodable, EncodeAnalog, Body, Checksum, AttemptSpec, Spells;
    var frame := EncodeFrame(ver, addr, cid1, RTN_OK, EncodeAnalog(s, t));
    SpellsItself(frame);
    assert frame + [] == frame && [] + [SOI] == [SOI];
    WireRoundTrip(s, t, ver, addr, cid1, RightDigits(s, t, ver, addr, cid1), [], script, [], frame, now);
  }

  // A reply without SOI counts from its first byte.
  lemma WithoutSOI(s: PackSample, t: nat, ver: Byte, addr: Byte, cid1: Byte, c: seq<Byte>, extra: seq<Byte>,
                   script: seq<Read>, body: seq<Byte>, now: int)
    requires Encodable(s, t) && |c| == 4 && IsClean(c) && IsClean(extra)
    requires SOI !in body && EOI !in body && Spells(body, FrameText(s, t, ver, addr, cid1, c, extra))
    requires body + [EOI] <= Stream(script)
    ensures AttemptSpec(Answers(script, now)) == Success(s.(ts := now))
  {
    hide Encodable, AnalogSpec, EncodeAnalog, ParseFrame, HexOnly, Stream, Body, Checksum;
    var info, text := EncodeAnalog(s, t), FrameText(s, t, ver, addr, cid1, c, extra);
    CleanedIffSpelled(body, text);
    StopsAtEOI(script, body);
    EncodableFits(s, t);
    ParseBody(ver, addr, cid1, 0, info, c, extra);
    AnalogRoundTrip(s, t, []);
    assert info + [] == info;
  }

  lemma StopsAtEOI(script: seq<Read>, rx: seq<Byte>)
    requires EOI !in rx && rx + [EOI] <= Stream(script)
    ensures ReadSpec(script) == (rx, None)
  {
    var stream := Stream(script);
    assert stream[..|rx| + 1] == rx + [EOI];
    assert stream[..|rx|] == rx && stream[|rx|] == EOI;
    FirstIndex(stream, EOI, |rx|);
  }

  // ---- Failed attempts ----

  // The device answers with an error code, whatever the rest of its frame: the attempt reports that.
  lemma DeviceError(ver: Byte, addr: Byte, cid1: Byte, code: Byte, info: seq<Byte>, c: seq<Byte>, extra: seq<Byte>,
                    script: seq<Read>, noise: seq<Byte>, body: seq<Byte>, now: int)
    requires code != 0 && |info| <= 2047 && |c| == 4 && IsClean(c) && IsClean(extra)
    requires Delivers(script, noise, body, Body(ver, addr, cid1, code, info) + c + extra)
    ensures AttemptSpec(Answers(script, now)) == Failure(ErrBMS)
  {
    hide ParseFrame, HexOnly, AfterSOI, ReadSpec, Stream, Body, Checksum;
    DeliveredText(script, noise, body, Body(ver, addr, cid1, code, info) + c + extra);
    ParseBody(ver, addr, cid1, code, info, c, extra);
  }

  // What was delivered spells no whole frame: a framing error.
  lemma GarbledReply(text: seq<Byte>, script: seq<Read>, noise: seq<Byte>, body: seq<Byte>, now: int)
    requires IsClean(text) && !Whole(text) && Delivers(script, noise, body, text)
    ensures AttemptSpec(Answers(script, now)) == Failure(ErrFraming)
  {
    hide ParseFrame, HexOnly, AfterSOI, ReadSpec, Stream, Whole;
    DeliveredText(script, noise, body, text);
    ParseOutcome(text);
  }

  // The frame is whole but its payload is not accepted: the decoder's error, see RejectedIff.
  lemma RejectedPayload(ver: Byte, addr: Byte, cid1: Byte, info: seq<Byte>, c: seq<Byte>, extra: seq<Byte>,
                        script: seq<Read>, noise: seq<Byte>, body: seq<Byte>, now: int)
    requires |info| <= 2047 && |c| == 4 && IsClean(c) && IsClean(extra)
    requires Delivers(script, noise, body, Body(ver, addr, cid1, 0, info) + c + extra)
    requires AnalogSpec(info).Failure?
    ensures AttemptSpec(Answers(script, now)) == Failure(AnalogSpec(info).error)
  {
    hide ParseFrame, HexOnly, AfterSOI, ReadSpec, Stream, Body, Checksum, AnalogSpec;
    DeliveredText(script, noise, body, Body(ver, addr, cid1, 0, info) + c + extra);
    ParseBody(ver, addr, cid1, 0, info, c, extra);
  }

  // No EOI comes: a timeout if no read fails, a port error if one does. All that came in is kept for the diagnosis.
  lemma SilentAttempt(script: seq<Read>, now: int)
    requires EOI !in Stream(script)
    ensures ReadError !in script ==> AttemptSpec(Answers(script, now)) == Failure(ErrTimeout)
    ensures ReadError in script ==> AttemptSpec(Answers(script, now)) == Failure(ErrPort)
    ensures RxOf(Answers(script, now)) == Stream(script)
  {
  }

  // The same told by the chunks that came in, EOI in none of them: then silence, or a driver error before anything.
  lemma SilentChunks(chunks: seq<seq<Byte>>, more: seq<Read>, now: int)
    requires EOI !in Flatten(chunks)
    ensures AttemptSpec(Answers(Chunked(chunks), now)) == Failure(ErrTimeout)
    ensures AttemptSpec(Answers(Chunked(chunks) + [ReadError] + more, now)) == Failure(ErrPort)
    ensures RxOf(Answers(Chunked(chunks), now)) == Flatten(chunks)
    ensures RxOf(Answers(Chunked(chunks) + [ReadError] + more, now)) == Flatten(chunks)
  {
    hide AttemptSpec, RxOf;
    StreamOfChunks(chunks, []);
    assert Chunked(chunks) + [] == Chunked(chunks) && Flatten(chunks) + [] == Flatten(chunks);
    SilentAttempt(Chunked(chunks), now);
    var rest := [ReadError] + more;
    StreamOfChunks(chunks, rest);
    assert Chunked(chunks) + [ReadError] + more == Chunked(chunks) + rest;
    assert (Chunked(chunks) + rest)[|chunks|] == ReadError;
    SilentAttempt(Chunked(chunks) + rest, now);
  }

  // An EOI comes: the bytes before the first one are what the attempt received, and no port error or timeout comes
  // of it.
  lemma AnsweredAttempt(script: seq<Read>, rx: seq<Byte>, now: int)
    requires EOI !in rx && rx + [EOI] <= Stream(script)
    ensures RxOf(Answers(script, now)) == rx
    ensures AttemptSpec(Answers(script, now)) != Failure(ErrPort)
    ensures AttemptSpec(Answers(script, now)) != Failure(ErrTimeout)
  {
    hide ReadSpec, HexOnly, AfterSOI, ParseFrame, AnalogSpec, Stream;
    StopsAtEOI(script, rx);
    var text := HexOnly(AfterSOI(rx));
    ParseErrors(text);
    if ParseFrame(text).Success? {
      RejectedIff(ParseFrame(text).value.info);
    }
  }

  lemma ParseErrors(s: seq<Byte>)
    ensures ParseFrame(s).Failure? ==> ParseFrame(s).error in {ErrFraming, ErrBMS}
  {
    ParseOutcome(s);
  }

  // The port is gone: a setup call fails, or a read does before any EOI.
  predicate PortFails(a: Attempt) {
    !a.Answers? || (EOI !in Stream(a.script) && ReadError in a.script)
  }

  // An attempt ends in a port error exactly when the port is gone; nothing the pack or the line says looks like it.
  lemma PortErrorIff(a: Attempt)
    ensures AttemptSpec(a) == Failure(ErrPort) <==> PortFails(a)
    ensures !a.Answers? ==> RxOf(a) == []
  {
    hide AttemptSpec, RxOf, Stream;
    if !a.Answers? {
      SetupFails(a);
    } else if EOI in Stream(a.script) {
      var rx := UpToEOI(Stream(a.script));
      AnsweredAttempt(a.script, rx, a.now);
      assert a == Answers(a.script, a.now);
    } else {
      SilentAttempt(a.script, a.now);
      assert a == Answers(a.script, a.now);
    }
  }

  lemma SetupFails(a: Attempt)
    requires !a.Answers?
    ensures AttemptSpec(a) == Failure(ErrPort) && RxOf(a) == []
  {
  }

  lemma {:induction false} UpToEOI(s: seq<Byte>) returns (rx: seq<Byte>)
    requires EOI in s
    ensures EOI !in rx && rx + [EOI] <= s
  {
    rx := [];
    if s[0] != EOI {
      rx := UpToEOI(s[1..]);
      assert s == [s[0]] + s[1..];
      rx := [s[0]] + rx;
    }
  }

  // When both attempts fail the poll fails, with the error of the second.
  lemma SecondErrorReported(attempts: seq<Attempt>)
    requires |attempts| == 2 && AttemptSpec(attempts[0]).Failure? && AttemptSpec(attempts[1]).Failure?
    ensures PollSpec(attempts) == Failure(AttemptSpec(attempts[1]).error)
  {
    hide AttemptSpec;
  }

  // A port that delivers a sample at once, in one read.
  ghost function PlainPort(s: PackSample, t: nat, now: int): (port: seq<Attempt>)
    requires Encodable(s, t)
    ensures |port| == ANALOG_ATTEMPTS
  {
    [Answers([Data([SOI] + EncodeFrame(VER, 0, CID1, RTN_OK, EncodeAnalog(s, t)) + [EOI])], now), ResetFails]
  }

  lemma PlainPoll(s: PackSample, t: nat, now: int)
    requires Encodable(s, t)
    ensures PollSpec(PlainPort(s, t, now)) == Success(s.(ts := now))
  {
    hide Encodable, EncodeAnalog, EncodeFrame, AttemptSpec;
    var line := [SOI] + EncodeFrame(VER, 0, CID1, RTN_OK, EncodeAnalog(s, t)) + [EOI];
    assert Stream([Data(line)]) == line + Stream([Data(line)][1..]) == line;
    PlainRoundTrip(s, t, VER, 0, CID1, [Data(line)], now);
  }

  function Flatten(chunks: seq<seq<Byte>>): seq<Byte> {
    if chunks == [] then [] else chunks[0] + Flatten(chunks[1..])
  }

  // The reads that deliver these chunks, empty ones included, one by one.
  function Chunked(chunks: seq<seq<Byte>>): (script: seq<Read>)
    ensures |script| == |chunks|
  {
    seq(|chunks|, i requires 0 <= i < |chunks| => Data(chunks[i]))
  }

  lemma {:induction false} StreamOfChunks(chunks: seq<seq<Byte>>, rest: seq<Read>)
    ensures Stream(Chunked(chunks) + rest) == Flatten(chunks) + Stream(rest)
  {
    if chunks == [] {
      assert Chunked(chunks) + rest == rest;
    } else {
      StreamOfChunks(chunks[1..], rest);
      assert (Chunked(chunks) + rest)[1..] == Chunked(chunks[1..]) + rest;
    }
  }

  // How the bytes are cut into reads is invisible: any chunks, whatever comes after them, give the result of the
  // same bytes in a single read.
  lemma RechunkingInvisible(chunks: seq<seq<Byte>>, rest: seq<Read>, now: int)
    ensures AttemptSpec(Answers(Chunked(chunks) + rest, now))
            == AttemptSpec(Answers([Data(Flatten(chunks))] + rest, now))
  {
    hide AttemptSpec;
    var whole := [Flatten(chunks)];
    StreamOfChunks(chunks, rest);
    StreamOfChunks(whole, rest);
    assert Flatten(whole) == whole[0] + Flatten(whole[1..]);
    assert Chunked(whole) == [Data(Flatten(chunks))];
    ChunkingInvisible(Chunked(chunks) + rest, Chunked(whole) + rest, now);
  }

  // Two scripts with the same stream and the same fate read alike.
  lemma ChunkingInvisible(a: seq<Read>, b: seq<Read>, now: int)
    requires Stream(a) == Stream(b) && (ReadError in a <==> ReadError in b)
    ensures AttemptSpec(Answers(a, now)) == AttemptSpec(Answers(b, now))
  {
  }
}
