/**
 The binary frames of micro/net/frame.go: a 22-byte fixed header, then the header and
 body bytes. Lengths are truncated to 32 bits where the source truncates them. A nil
 byte slice and an empty one are the same value here.
 */
module FrameCodec {
  import opened Common
  import opened Bytes

  const MAGIC: u16 := 0x4D4E
  const VERSION: u8 := 1
  const HEADER_LEN := 22

  datatype Frame = Frame(magic: u16, version: u8, msgType: u8, flags: u8, requestID: u64,
                         header: seq<byte>, body: seq<byte>)

  datatype Limits = Limits(maxHeader: u32, maxBody: u32)

  datatype Error = InvalidMagic | UnknownVersion | LargeHeader | LargeBody | ShortRead

  datatype Result<+T> = Ok(value: T) | Err(error: Error)

  function Truncated(n: nat): u32 {
    n % 0x1_0000_0000
  }

  /** The check before writing: magic and version may also be zero. */
  function Validate(f: Frame, lim: Limits): Option<Error> {
    if f.magic != 0 && f.magic != MAGIC then Some(InvalidMagic)
    else if f.version != 0 && f.version != VERSION then Some(UnknownVersion)
    else if Truncated(|f.header|) > lim.maxHeader then Some(LargeHeader)
    else if Truncated(|f.body|) > lim.maxBody then Some(LargeBody)
    else None
  }

  function FixedHeader(f: Frame): (s: seq<byte>)
    ensures |s| == HEADER_LEN
  {
    Put(f.magic, 2) + [f.version, f.msgType, f.flags, 0]
    + Put(Truncated(|f.header|), 4) + Put(Truncated(|f.body|), 4) + Put(f.requestID, 8)
  }

  function Encode(f: Frame): seq<byte> {
    FixedHeader(f) + f.header + f.body
  }

  /** What the fixed header says, before it is checked. */
  datatype Fields = Fields(magic: nat, version: u8, msgType: u8, flags: u8, headerLen: nat, bodyLen: nat,
                           requestID: nat)

  function Parse(h: seq<byte>): Fields
    requires |h| == HEADER_LEN
  {
    Fields(Get(h[0..2]), h[2], h[3], h[4], Get(h[6..10]), Get(h[10..14]), Get(h[14..22]))
  }

  lemma ParsedAt(s: seq<byte>)
    requires |s| >= HEADER_LEN
    ensures Parse(s[..HEADER_LEN]) == Fields(At2(s, 0), s[2], s[3], s[4], At4(s, 6), At4(s, 10), At8(s, 14))
  {
    hide Get, At2, At4, At8;
    BigEndian(s, 0);
    BigEndian(s, 6);
    BigEndian(s, 10);
    BigEndian(s, 14);
    var h := s[..HEADER_LEN];
    assert h[0..2] == s[0..2] && h[6..10] == s[6..10] && h[10..14] == s[10..14] && h[14..22] == s[14..22];
  }

  /** The bytes on the wire, by their positions. */
  lemma FrameLayout(f: Frame)
    ensures var s := Encode(f);
            && |s| == 22 + |f.header| + |f.body|
            && At2(s, 0) == f.magic && s[2] == f.version && s[3] == f.msgType && s[4] == f.flags && s[5] == 0
            && At4(s, 6) == |f.header| % 0x1_0000_0000 && At4(s, 10) == |f.body| % 0x1_0000_0000
            && At8(s, 14) == f.requestID
            && s[22..22 + |f.header|] == f.header && s[22 + |f.header|..] == f.body
  {
    var s := Encode(f);
    assert s[..HEADER_LEN] == FixedHeader(f) && s[5] == FixedHeader(f)[5] == 0;
    hide FixedHeader, Parse, At2, At4, At8;
    FixedHeaderParses(f);
    ParsedAt(s);
  }

  /** Reads one frame off the front of a byte stream and returns the rest. */
  function Decode(s: seq<byte>, lim: Limits): (r: Result<(Frame, seq<byte>)>)
    ensures r.Ok? ==> |r.value.1| < |s|
  {
    if |s| < HEADER_LEN then Err(ShortRead)
    else
      var h := Parse(s[..HEADER_LEN]);
      ParsedInRange(s[..HEADER_LEN]);
      if h.magic != MAGIC then Err(InvalidMagic)
      else if h.version != VERSION then Err(UnknownVersion)
      else if h.headerLen > lim.maxHeader then Err(LargeHeader)
      else if h.bodyLen > lim.maxBody then Err(LargeBody)
      else if |s| < HEADER_LEN + h.headerLen + h.bodyLen then Err(ShortRead)
      else
        var at := HEADER_LEN + h.headerLen;
        Ok((Frame(MAGIC, VERSION, h.msgType, h.flags, h.requestID, s[HEADER_LEN..at], s[at..at + h.bodyLen]),
            s[at + h.bodyLen..]))
  }

  lemma ParsedInRange(h: seq<byte>)
    requires |h| == HEADER_LEN
    ensures Parse(h).headerLen < 0x1_0000_0000 && Parse(h).bodyLen < 0x1_0000_0000
    ensures Parse(h).requestID < 0x1_0000_0000_0000_0000
  {
    Widths();
    GetBelowWidth(h[6..10]);
    GetBelowWidth(h[10..14]);
    GetBelowWidth(h[14..22]);
  }

  // ---------------------------------------------------------------- round trip

  /** The frames the decoder can return: the fixed magic and version, lengths that fit their fields. */
  ghost predicate Canonical(f: Frame) {
    f.magic == MAGIC && f.version == VERSION && |f.header| < 0x1_0000_0000 && |f.body| < 0x1_0000_0000
  }

  ghost predicate Sendable(f: Frame, lim: Limits) {
    Canonical(f) && Validate(f, lim).None?
  }

  /** Exactly which streams are refused, and why, by the bytes in front. */
  lemma DecodeExactly(s: seq<byte>, lim: Limits)
    ensures |s| < 22 ==> Decode(s, lim) == Err(ShortRead)
    ensures |s| >= 22 ==>
              var r, h, b := Decode(s, lim), At4(s, 6), At4(s, 10);
              if At2(s, 0) != 0x4D4E then r == Err(InvalidMagic)
              else if s[2] != 1 then r == Err(UnknownVersion)
              else if h > lim.maxHeader then r == Err(LargeHeader)
              else if b > lim.maxBody then r == Err(LargeBody)
              else if |s| < 22 + h + b then r == Err(ShortRead)
              else && r.Ok? && r.value.1 == s[22 + h + b..]
                   && var f := r.value.0;
                      && f.msgType == s[3] && f.flags == s[4] && f.requestID == At8(s, 14)
                      && f.header == s[22..22 + h] && f.body == s[22 + h..22 + h + b]
  {
    if |s| >= 22 {
      ParsedAt(s);
      hide Parse, At2, At4, At8;
    }
  }

  /** Exactly which frames pass the check before writing. */
  lemma ValidatedExactly(f: Frame, lim: Limits)
    ensures Validate(f, lim).None? <==>
              && (f.magic == 0 || f.magic == 0x4D4E) && (f.version == 0 || f.version == 1)
              && |f.header| % 0x1_0000_0000 <= lim.maxHeader && |f.body| % 0x1_0000_0000 <= lim.maxBody
  {
  }

  lemma FixedHeaderParses(f: Frame)
    ensures Parse(FixedHeader(f))
         == Fields(f.magic, f.version, f.msgType, f.flags, Truncated(|f.header|), Truncated(|f.body|), f.requestID)
  {
    var h := FixedHeader(f);
    Widths();
    GetPut(f.magic, 2);
    GetPut(Truncated(|f.header|), 4);
    GetPut(Truncated(|f.body|), 4);
    GetPut(f.requestID, 8);
    hide Put, Get, Width;
    assert h[0..2] == Put(f.magic, 2);
    assert h[6..10] == Put(Truncated(|f.header|), 4);
    assert h[10..14] == Put(Truncated(|f.body|), 4);
    assert h[14..22] == Put(f.requestID, 8);
  }

  /** A sendable frame is read back unchanged, and exactly its bytes are consumed. */
  lemma DecodeEncode(f: Frame, lim: Limits, rest: seq<byte>)
    requires Sendable(f, lim)
    ensures Decode(Encode(f) + rest, lim) == Ok((f, rest))
  {
    hide FixedHeader, Parse;
    var s := Encode(f) + rest;
    assert s[..HEADER_LEN] == FixedHeader(f);
    FixedHeaderParses(f);
    var at := HEADER_LEN + |f.header|;
    assert s[HEADER_LEN..at] == f.header;
    assert s[at..at + |f.body|] == f.body;
    assert s[at + |f.body|..] == rest;
  }

  /** Whatever the decoder returns is sendable under the same limits. */
  lemma DecodedIsSendable(s: seq<byte>, lim: Limits)
    requires Decode(s, lim).Ok?
    ensures Sendable(Decode(s, lim).value.0, lim)
  {
    ParsedInRange(s[..HEADER_LEN]);
  }

  /** The round trip holds exactly for the sendable frames; magic 0 or version 0 pass validation but not the decoder. */
  lemma RoundTripExactly(f: Frame, lim: Limits)
    ensures (forall rest :: Decode(Encode(f) + rest, lim) == Ok((f, rest))) <==> Sendable(f, lim)
  {
    if Sendable(f, lim) {
      forall rest ensures Decode(Encode(f) + rest, lim) == Ok((f, rest)) { DecodeEncode(f, lim, rest); }
    } else {
      var s := Encode(f) + [];
      if Decode(s, lim) == Ok((f, [])) { DecodedIsSendable(s, lim); }
    }
  }

  /** Frames of magic 0 or version 0 pass the check before writing, and every reader refuses what is written. */
  lemma ZeroIsWrittenButRefused(f: Frame, lim: Limits, rest: seq<byte>)
    requires Validate(f, lim).None? && (f.magic == 0 || f.version == 0)
    ensures Decode(Encode(f) + rest, lim) == Err(if f.magic == 0 then InvalidMagic else UnknownVersion)
  {
    hide FixedHeader, Parse;
    assert (Encode(f) + rest)[..HEADER_LEN] == FixedHeader(f);
    FixedHeaderParses(f);
  }

  /** The smallest such frames: nothing set but the version, and nothing set but the magic. */
  lemma ZeroFrames()
    ensures var f, lim := Frame(0, VERSION, 0, 0, 0, [], []), Limits(0, 0);
            Validate(f, lim).None? && Decode(Encode(f), lim) == Err(InvalidMagic)
    ensures var f, lim := Frame(MAGIC, 0, 0, 0, 0, [], []), Limits(0, 0);
            Validate(f, lim).None? && Decode(Encode(f), lim) == Err(UnknownVersion)
  {
    var f, g := Frame(0, VERSION, 0, 0, 0, [], []), Frame(MAGIC, 0, 0, 0, 0, [], []);
    hide FixedHeader, Parse, Decode;
    ZeroIsWrittenButRefused(f, Limits(0, 0), []);
    ZeroIsWrittenButRefused(g, Limits(0, 0), []);
    assert Encode(f) + [] == Encode(f) && Encode(g) + [] == Encode(g);
  }

  /** The decoder takes no frame from a stream that stops inside it. */
  lemma TruncatedFrameIsShort(f: Frame, lim: Limits, n: nat)
    requires Sendable(f, lim) && n < |Encode(f)|
    ensures Decode(Encode(f)[..n], lim) == Err(ShortRead)
  {
    hide FixedHeader, Parse;
    var s := Encode(f)[..n];
    FixedHeaderParses(f);
    if n >= HEADER_LEN { assert s[..HEADER_LEN] == FixedHeader(f); }
  }

  // ---------------------------------------------------------------- streams of frames

  function EncodeAll(fs: seq<Frame>): seq<byte> {
    if fs == [] then [] else EncodeAll(fs[..|fs| - 1]) + Encode(fs[|fs| - 1])
  }

  /** All frames a reader takes from the stream, and the bytes it cannot read. */
  function DecodeAll(s: seq<byte>, lim: Limits): (seq<Frame>, seq<byte>)
    decreases |s|
  {
    var r := Decode(s, lim);
    if r.Err? then ([], s)
    else
      var (fs, rest) := DecodeAll(r.value.1, lim);
      ([r.value.0] + fs, rest)
  }

  ghost predicate AllSendable(fs: seq<Frame>, lim: Limits) {
    forall i :: 0 <= i < |fs| ==> Sendable(fs[i], lim)
  }

  lemma {:induction false} EncodeAllFront(f: Frame, fs: seq<Frame>)
    ensures EncodeAll([f] + fs) == Encode(f) + EncodeAll(fs)
  {
    hide Encode;
    if fs == [] {
      assert [f] + fs == [f] && [f][..0] == [];
    } else {
      var front, last := fs[..|fs| - 1], fs[|fs| - 1];
      EncodeAllFront(f, front);
      assert ([f] + fs)[..|fs|] == [f] + front;
      assert EncodeAll(fs) == EncodeAll(front) + Encode(last);
      assert EncodeAll([f] + fs) == (Encode(f) + EncodeAll(front)) + Encode(last);
    }
  }

  /** Reading a stream that starts with sendable frames takes them first, in order. */
  lemma {:induction false} DecodeAllConcat(fs: seq<Frame>, lim: Limits, rest: seq<byte>)
    requires AllSendable(fs, lim)
    ensures DecodeAll(EncodeAll(fs) + rest, lim) == (fs + DecodeAll(rest, lim).0, DecodeAll(rest, lim).1)
  {
    hide Encode, Decode, DecodeAll, EncodeAll, Sendable;
    if fs == [] {
      NoFrames();
      assert EncodeAll(fs) + rest == rest;
      assert fs + DecodeAll(rest, lim).0 == DecodeAll(rest, lim).0;
    } else {
      var f, more := fs[0], fs[1..];
      assert fs == [f] + more;
      EncodeAllFront(f, more);
      assert EncodeAll(fs) + rest == Encode(f) + (EncodeAll(more) + rest);
      DecodeAllStep(f, lim, EncodeAll(more) + rest);
      DecodeAllConcat(more, lim, rest);
      assert [f] + (more + DecodeAll(rest, lim).0) == fs + DecodeAll(rest, lim).0;
    }
  }

  lemma NoFrames()
    ensures EncodeAll([]) == []
  {
  }

  /** So it gives them back exactly, and stops where they end, if nothing can be read there. */
  lemma DecodeAllEncodeAll(fs: seq<Frame>, lim: Limits, rest: seq<byte>)
    requires AllSendable(fs, lim) && Decode(rest, lim).Err?
    ensures DecodeAll(EncodeAll(fs) + rest, lim) == (fs, rest)
  {
    hide Decode;
    DecodeAllConcat(fs, lim, rest);
    assert DecodeAll(rest, lim) == ([], rest) && fs + [] == fs;
  }

  /** Whatever the stream, the frames a reader takes are sendable. */
  lemma {:induction false} DecodeAllIsSendable(s: seq<byte>, lim: Limits)
    ensures AllSendable(DecodeAll(s, lim).0, lim)
    decreases |s|
  {
    hide Decode, Sendable;
    var r := Decode(s, lim);
    if r.Ok? {
      DecodedIsSendable(s, lim);
      DecodeAllIsSendable(r.value.1, lim);
    }
  }

  /** A sendable frame at the front is taken off first. */
  lemma DecodeAllStep(f: Frame, lim: Limits, rest: seq<byte>)
    requires Sendable(f, lim)
    ensures DecodeAll(Encode(f) + rest, lim) == ([f] + DecodeAll(rest, lim).0, DecodeAll(rest, lim).1)
  {
    hide Encode, Decode;
    DecodeEncode(f, lim, rest);
  }

  /** The encoding is uniquely decodable over arbitrary sequences of sendable frames. */
  lemma UniquelyDecodable(fs: seq<Frame>, gs: seq<Frame>, lim: Limits)
    requires AllSendable(fs, lim) && AllSendable(gs, lim)
    requires EncodeAll(fs) == EncodeAll(gs)
    ensures fs == gs
  {
    hide DecodeAll, EncodeAll;
    DecodeAllEncodeAll(fs, lim, []);
    DecodeAllEncodeAll(gs, lim, []);
    assert EncodeAll(fs) + [] == EncodeAll(fs);
    assert EncodeAll(gs) + [] == EncodeAll(gs);
  }

  // ---------------------------------------------------------------- as the source runs them

  method WriteHeaderFields(buf: array<byte>, f: Frame, headerLen: u32, bodyLen: u32)
    requires buf.Length >= HEADER_LEN
    requires headerLen == Truncated(|f.header|) && bodyLen == Truncated(|f.body|)
    modifies buf
    ensures buf[..HEADER_LEN] == FixedHeader(f) && buf[HEADER_LEN..] == old(buf[HEADER_LEN..])
  {
    hide Put;
    PutInto(buf, 0, f.magic, 2);
    assert buf[..2] == Put(f.magic, 2);
    buf[2], buf[3], buf[4], buf[5] := f.version, f.msgType, f.flags, 0;
    assert buf[..6] == Put(f.magic, 2) + [f.version, f.msgType, f.flags, 0];
    PutInto(buf, 6, headerLen, 4);
    assert buf[..10] == Put(f.magic, 2) + [f.version, f.msgType, f.flags, 0] + Put(headerLen, 4);
    PutInto(buf, 10, bodyLen, 4);
    assert buf[..14] == Put(f.magic, 2) + [f.version, f.msgType, f.flags, 0] + Put(headerLen, 4) + Put(bodyLen, 4);
    PutInto(buf, 14, f.requestID, 8);
    assert buf[..14] == Put(f.magic, 2) + [f.version, f.msgType, f.flags, 0] + Put(headerLen, 4) + Put(bodyLen, 4);
    assert buf[..22] == buf[..14] + buf[14..22];
    assert buf[HEADER_LEN..] == old(buf[HEADER_LEN..]);
  }

  /** Builds the whole frame in one buffer. */
  method EncodeWithLimits(f: Frame, lim: Limits) returns (r: Result<seq<byte>>)
    ensures r == if Validate(f, lim).Some? then Err(Validate(f, lim).value) else Ok(Encode(f))
    ensures r.Ok? <==>
              && (f.magic == 0 || f.magic == 0x4D4E) && (f.version == 0 || f.version == 1)
              && |f.header| % 0x1_0000_0000 <= lim.maxHeader && |f.body| % 0x1_0000_0000 <= lim.maxBody
  {
    ValidatedExactly(f, lim);
    var bad := Validate(f, lim);
    if bad.Some? {
      return Err(bad.value);
    }
    hide FixedHeader, Validate;
    var buf := new byte[HEADER_LEN + |f.header| + |f.body|](_ => 0);
    WriteHeaderFields(buf, f, Truncated(|f.header|), Truncated(|f.body|));
    var at := Append(buf, HEADER_LEN, f.header);
    at := Append(buf, at, f.body);
    assert buf[..] == buf[..at];
    r := Ok(buf[..]);
  }

  /** A reader that hands out a fixed stream of bytes. */
  class Reader {
    const data: seq<byte>
    var pos: nat

    ghost predicate Valid() reads this { pos <= |data| }

    /** Reads n bytes or reports that the stream ended. */
    method ReadFull(n: nat) returns (b: Option<seq<byte>>)
      requires Valid()
      modifies this
      ensures Valid() && pos >= old(pos)
      ensures b.Some? <==> old(pos) + n <= |data|
      ensures b.Some? ==> pos == old(pos) + n && b.value == data[old(pos)..pos]
    {
      if pos + n <= |data| {
        b := Some(data[pos..pos + n]);
        pos := pos + n;
      } else {
        pos := |data|;
        b := None;
      }
    }
  }

  method DecodeFrame(r: Reader, lim: Limits) returns (res: Result<Frame>)
    requires r.Valid()
    modifies r
    ensures r.Valid()
    ensures var d := Decode(old(r.data[r.pos..]), lim);
            if d.Ok? then res == Ok(d.value.0) && r.data[r.pos..] == d.value.1 else res == Err(d.error)
  {
    ghost var s := r.data[r.pos..];
    var h := r.ReadFull(HEADER_LEN);
    if h.None? { return Err(ShortRead); }
    assert s[..HEADER_LEN] == h.value;
    var p := Parse(h.value);
    ParsedInRange(h.value);
    if p.magic != MAGIC { return Err(InvalidMagic); }
    if p.version != VERSION { return Err(UnknownVersion); }
    if p.headerLen > lim.maxHeader { return Err(LargeHeader); }
    if p.bodyLen > lim.maxBody { return Err(LargeBody); }
    var header: seq<byte>, body: seq<byte> := [], [];
    if p.headerLen > 0 {
      var b := r.ReadFull(p.headerLen);
      if b.None? { return Err(ShortRead); }
      header := b.value;
    }
    assert header == s[HEADER_LEN..HEADER_LEN + p.headerLen];
    if p.bodyLen > 0 {
      var b := r.ReadFull(p.bodyLen);
      if b.None? { return Err(ShortRead); }
      body := b.value;
    }
    ghost var at := HEADER_LEN + p.headerLen;
    assert body == s[at..at + p.bodyLen];
    assert r.data[r.pos..] == s[at + p.bodyLen..];
    res := Ok(Frame(MAGIC, VERSION, p.msgType, p.flags, p.requestID, header, body));
  }
}
