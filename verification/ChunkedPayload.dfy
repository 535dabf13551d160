/** Decoding of aws-chunked uploads (`decodeStreamingPayload`; Amazon S3 API
    Reference, "Transferring Payload in Multiple Chunks"). Every chunk carries a
    signature over its data and the signature before it. */
module ChunkedPayload {
  import opened Keys
  import opened Records

  const CR: Byte := 13
  const LF: Byte := 10

  /** ";chunk-signature=" */
  const SEPARATOR: Key := [59, 99, 104, 117, 110, 107, 45, 115, 105, 103, 110, 97, 116, 117, 114, 101, 61]

  const TWO63: nat := 0x8000_0000_0000_0000
  const MAX_IN_MEMORY: nat := 2097152

  /** Why a payload is refused; all but `TooLarge` answer SignatureDoesNotMatch. */
  datatype Fault = NoHeader | NoSignature | BadSize | TooLarge | Truncated | NoTerminator | WrongSignature

  // ----- chunk sizes -----

  predicate IsHexDigit(b: Byte) {
    48 <= b <= 57 || 65 <= b <= 70 || 97 <= b <= 102
  }

  function DigitValue(b: Byte): (v: nat)
    requires IsHexDigit(b)
    ensures v < 16
  {
    if b <= 57 then b - 48 else if b <= 70 then b - 55 else b - 87
  }

  predicate AllHex(s: Key) {
    s == [] || (IsHexDigit(s[|s| - 1]) && AllHex(s[..|s| - 1]))
  }

  function HexValue(s: Key): nat
    requires AllHex(s)
  {
    if s == [] then 0 else 16 * HexValue(s[..|s| - 1]) + DigitValue(s[|s| - 1])
  }

  predicate Signed(s: Key) {
    s != [] && s[0] in {43, 45}
  }

  /** `strconv.ParseInt(s, 16, 64)` with negative sizes refused: an optional sign,
      then hexadecimal digits whose value fits 63 bits. */
  function SizeOf(s: Key): Option<nat> {
    var digits := if Signed(s) then s[1..] else s;
    if digits == [] || !AllHex(digits) then None
    else
      var v := HexValue(digits);
      if v >= TWO63 || (Signed(s) && s[0] == 45 && v > 0) then None else Some(v)
  }

  // ----- one frame -----

  function TrimRight(s: Key): Key {
    if s != [] && s[|s| - 1] in {CR, LF} then TrimRight(s[..|s| - 1]) else s
  }

  datatype Frame = Good(signature: Key, data: Key, used: nat) | Bad(fault: Fault)

  /** Read one chunk from the front of the body. */
  function ReadFrame(body: Key, max: int): (f: Frame)
    ensures f.Good? ==> |f.data| < f.used <= |body|
  {
    var nl := IndexOf(body, [LF]);
    if nl < 0 then Bad(NoHeader)
    else
      var header := TrimRight(body[..nl + 1]);
      var cut := IndexOf(header, SEPARATOR);
      if cut < 0 then Bad(NoSignature)
      else
        match SizeOf(header[..cut])
        case None => Bad(BadSize)
        case Some(n) =>
          var start := nl + 1;
          if max > 0 && n > max then Bad(TooLarge)
          else if start + n > |body| then Bad(Truncated)
          else if start + n + 2 > |body| || body[start + n..start + n + 2] != [CR, LF] then Bad(NoTerminator)
          else Good(header[cut + |SEPARATOR|..], body[start..start + n], start + n + 2)
  }

  // ----- the whole payload -----

  datatype Outcome = Accepted(payload: Key) | Rejected(fault: Fault)
  {
    function Behind(front: Key): Outcome {
      match this
      case Accepted(p) => Accepted(front + p)
      case Rejected(_) => this
    }
  }

  /** Something that reads frames off the front of a body. */
  ghost predicate Reads(read: Key -> Frame) {
    forall b :: read(b).Good? ==> 0 < read(b).used <= |b|
  }

  function FrameReader(max: int): Key -> Frame {
    (b: Key) => ReadFrame(b, max)
  }

  lemma FrameReaderReads(max: int)
    ensures Reads(FrameReader(max))
  {
  }

  /** `sign(previous, data)` is the signature that a chunk must carry. */
  ghost function Decode(body: Key, read: Key -> Frame, sign: (Key, Key) -> Key, previous: Key, spooled: nat,
                        max: int): Outcome
    requires Reads(read)
    decreases |body|
  {
    match read(body)
    case Bad(fault) => Rejected(fault)
    case Good(signature, data, used) =>
      if sign(previous, data) != signature then Rejected(WrongSignature)
      else if data == [] then Accepted([])
      else if max > 0 && spooled + |data| > max then Rejected(TooLarge)
      else Decode(body[used..], read, sign, signature, spooled + |data|, max).Behind(data)
  }

  ghost function DecodeBody(body: Key, sign: (Key, Key) -> Key, seed: Key, max: int): Outcome {
    FrameReaderReads(max);
    Decode(body, FrameReader(max), sign, seed, 0, max)
  }

  /** What replaces the request body. */
  datatype Decoded = InMemory(bytes: Key) | InTempFile(bytes: Key) | Failed(fault: Fault)

  function Stored(o: Outcome): Decoded {
    match o
    case Rejected(fault) => Failed(fault)
    case Accepted(p) => if |p| > MAX_IN_MEMORY then InTempFile(p) else InMemory(p)
  }

  method DecodeStreamingPayload(body: Key, sign: (Key, Key) -> Key, seed: Key, max: int) returns (r: Decoded)
    ensures r == Stored(DecodeBody(body, sign, seed, max))
    ensures forall p ::
              DecodeBody(body, sign, seed, max) == Accepted(p) ==>
                r == if |p| <= 2097152 then InMemory(p) else InTempFile(p)
  {
    FrameReaderReads(max);
    r := DecodeLoop(body, FrameReader(max), sign, seed, max);
  }

  /** The loop's state: `out` is decoded, `rest` is still to come. */
  ghost predicate Decoding(whole: Outcome, read: Key -> Frame, sign: (Key, Key) -> Key, max: int, rest: Key,
                           previous: Key, out: Key)
    requires Reads(read)
  {
    whole == Decode(rest, read, sign, previous, |out|, max).Behind(out)
  }

  lemma DecodingMoves(whole: Outcome, read: Key -> Frame, sign: (Key, Key) -> Key, max: int, rest: Key,
                      previous: Key, out: Key)
    requires Reads(read) && Decoding(whole, read, sign, max, rest, previous, out)
    ensures match read(rest)
            case Bad(fault) => whole == Rejected(fault)
            case Good(signature, data, used) =>
              if sign(previous, data) != signature then whole == Rejected(WrongSignature)
              else if data == [] then whole == Accepted(out)
              else if max > 0 && |out| + |data| > max then whole == Rejected(TooLarge)
              else Decoding(whole, read, sign, max, rest[used..], signature, out + data)
  {
    var f := read(rest);
    if f.Good? && sign(previous, f.data) == f.signature {
      if f.data == [] {
        assert out + [] == out;
      } else if !(max > 0 && |out| + |f.data| > max) {
        BehindTwice(Decode(rest[f.used..], read, sign, f.signature, |out| + |f.data|, max), out, f.data);
      }
    }
  }

  /** The decode loop with its switch from memory to a temporary file. */
  method DecodeLoop(body: Key, read: Key -> Frame, sign: (Key, Key) -> Key, seed: Key, max: int) returns (r: Decoded)
    requires Reads(read)
    ensures r == Stored(Decode(body, read, sign, seed, 0, max))
  {
    var rest, previous, spooled: nat := body, seed, 0;
    var mem: Key, tmpFile: Option<Key> := [], None;
    ghost var whole, out: Key := Decode(body, read, sign, seed, 0, max), [];
    while true
      invariant out == if tmpFile.Some? then tmpFile.value else mem
      invariant spooled == |out| && (tmpFile.Some? <==> |out| > MAX_IN_MEMORY)
      invariant Decoding(whole, read, sign, max, rest, previous, out)
      decreases |rest|
    {
      var frame := read(rest);
      DecodingMoves(whole, read, sign, max, rest, previous, out);
      if frame.Bad? {
        return Failed(frame.fault);
      }
      var expected := sign(previous, frame.data);
      if expected != frame.signature {
        return Failed(WrongSignature);
      }
      if frame.data == [] {
        break;
      }
      if max > 0 && spooled + |frame.data| > max {
        return Failed(TooLarge);
      }
      previous, rest := expected, rest[frame.used..];
      spooled := spooled + |frame.data|;
      if tmpFile.None? && |mem| + |frame.data| > MAX_IN_MEMORY {
        tmpFile, mem := Some(mem), [];
      }
      if tmpFile.Some? {
        tmpFile := Some(tmpFile.value + frame.data);
      } else {
        mem := mem + frame.data;
      }
      out := out + frame.data;
    }
    r := if tmpFile.Some? then InTempFile(tmpFile.value) else InMemory(mem);
  }

  lemma BehindTwice(o: Outcome, a: Key, b: Key)
    ensures o.Behind(b).Behind(a) == o.Behind(a + b)
  {
    if o.Accepted? {
      assert a + (b + o.payload) == (a + b) + o.payload;
    }
  }

  // ----- which bodies are accepted -----

  /** How a client may write a chunk: the digits of its size, its line end (some
      CRs and an LF), and its data. */
  datatype Chunk = Chunk(sizeText: Key, eol: Key, data: Key)

  predicate IsEol(e: Key) {
    e != [] && e[|e| - 1] == LF && forall i :: 0 <= i < |e| - 1 ==> e[i] == CR
  }

  predicate ValidChunk(c: Chunk) {
    IsEol(c.eol) && SizeOf(c.sizeText) == Some(|c.data|)
  }

  function Head(c: Chunk, signature: Key): Key {
    c.sizeText + SEPARATOR + signature
  }

  function Render(c: Chunk, signature: Key): Key {
    Head(c, signature) + c.eol + c.data + [CR, LF]
  }

  /** The chunks, each signed on the one before. */
  function RenderAll(cs: seq<Chunk>, sign: (Key, Key) -> Key, previous: Key): Key
    decreases |cs|
  {
    if cs == [] then []
    else
      var signature := sign(previous, cs[0].data);
      Render(cs[0], signature) + RenderAll(cs[1..], sign, signature)
  }

  /** Chunks with data, then one without. */
  predicate IsStream(cs: seq<Chunk>) {
    && cs != [] && ValidChunk(cs[0])
    && if |cs| == 1 then cs[0].data == [] else cs[0].data != [] && IsStream(cs[1..])
  }

  function Payload(cs: seq<Chunk>): Key {
    if cs == [] then [] else cs[0].data + Payload(cs[1..])
  }

  /** Signatures are texts within one line, as hexadecimal digits are. */
  ghost predicate SignsInLine(sign: (Key, Key) -> Key) {
    forall p, d :: InLine(sign(p, d))
  }

  predicate InLine(s: Key) {
    LF !in s && (s != [] ==> s[|s| - 1] != CR)
  }

  lemma {:induction false} TrimsEol(s: Key, e: Key)
    requires s != [] ==> s[|s| - 1] !in {CR, LF}
    requires forall i :: 0 <= i < |e| ==> e[i] in {CR, LF}
    ensures TrimRight(s + e) == s
    decreases |e|
  {
    if e == [] {
      assert s + e == s;
    } else {
      assert (s + e)[..|s + e| - 1] == s + e[..|e| - 1];
      TrimsEol(s, e[..|e| - 1]);
    }
  }

  lemma {:induction false} TrimMeans(s: Key) returns (e: Key)
    ensures s == TrimRight(s) + e && forall i :: 0 <= i < |e| ==> e[i] in {CR, LF}
    ensures TrimRight(s) != [] ==> TrimRight(s)[|TrimRight(s)| - 1] !in {CR, LF}
  {
    if s != [] && s[|s| - 1] in {CR, LF} {
      var d := TrimMeans(s[..|s| - 1]);
      e := d + [s[|s| - 1]];
      assert s == s[..|s| - 1] + [s[|s| - 1]];
    } else {
      e := [];
    }
  }

  /** The first occurrence is where nothing starts earlier. */
  lemma FirstAt(s: Key, sub: Key, i: nat)
    requires At(s, sub, i) && forall j :: 0 <= j < i ==> !At(s, sub, j)
    ensures IndexOf(s, sub) == i
  {
    IndexFromIsFirst(s, sub, 0);
  }

  lemma StartsThere(s: Key, sub: Key, j: nat)
    requires sub != [] && j < |s|
    ensures At(s, sub, j) ==> s[j] == sub[0]
  {
    if At(s, sub, j) {
      assert s[j] == s[j..j + |sub|][0];
    }
  }

  lemma FirstLineEnd(s: Key, i: nat)
    requires i < |s| && s[i] == LF && forall j :: 0 <= j < i ==> s[j] != LF
    ensures IndexOf(s, [LF]) == i
  {
    assert s[i..i + 1] == [LF];
    forall j | 0 <= j < i ensures !At(s, [LF], j) {
      assert s[j..j + 1][0] == s[j];
    }
    FirstAt(s, [LF], i);
  }

  lemma {:induction false} AllHexMeans(s: Key)
    requires AllHex(s)
    ensures forall i :: 0 <= i < |s| ==> IsHexDigit(s[i])
  {
    if s != [] {
      AllHexMeans(s[..|s| - 1]);
    }
  }

  /** The digits of a size contain neither a line end nor the separator's first byte. */
  lemma SizeTextIsPlain(s: Key)
    requires SizeOf(s).Some?
    ensures forall i :: 0 <= i < |s| ==> s[i] != LF && s[i] != SEPARATOR[0]
  {
    if Signed(s) {
      AllHexMeans(s[1..]);
      forall i | 0 < i < |s| ensures IsHexDigit(s[i]) {
        assert s[i] == s[1..][i - 1];
      }
    } else {
      AllHexMeans(s);
    }
  }

  lemma HeadCuts(c: Chunk, signature: Key)
    requires SizeOf(c.sizeText).Some?
    ensures IndexOf(Head(c, signature), SEPARATOR) == |c.sizeText|
    ensures Head(c, signature)[..|c.sizeText|] == c.sizeText
            && Head(c, signature)[|c.sizeText| + |SEPARATOR|..] == signature
  {
    var h := Head(c, signature);
    SizeTextIsPlain(c.sizeText);
    assert h[|c.sizeText|..|c.sizeText| + |SEPARATOR|] == SEPARATOR;
    forall j | 0 <= j < |c.sizeText| ensures !At(h, SEPARATOR, j) {
      assert h[j] == c.sizeText[j];
      StartsThere(h, SEPARATOR, j);
    }
    FirstAt(h, SEPARATOR, |c.sizeText|);
  }

  /** The header line of a rendered chunk is found and taken apart again. */
  lemma LineIsRead(c: Chunk, signature: Key, tail: Key)
    requires ValidChunk(c) && InLine(signature)
    ensures var line := Head(c, signature) + c.eol;
            IndexOf(line + tail, [LF]) == |line| - 1 && TrimRight(line) == Head(c, signature)
  {
    var h := Head(c, signature);
    var line := h + c.eol;
    SizeTextIsPlain(c.sizeText);
    forall j | 0 <= j < |line| - 1 ensures (line + tail)[j] != LF {
      if j < |h| {
        HeadByte(c, signature, j);
      }
    }
    FirstLineEnd(line + tail, |line| - 1);
    assert h[|h| - 1] !in {CR, LF} by {
      HeadByte(c, signature, |h| - 1);
    }
    TrimsEol(h, c.eol);
  }

  lemma HeadByte(c: Chunk, signature: Key, j: nat)
    requires SizeOf(c.sizeText).Some? && InLine(signature) && j < |Head(c, signature)|
    ensures Head(c, signature)[j] != LF
    ensures j == |Head(c, signature)| - 1 ==> Head(c, signature)[j] != CR
  {
    SizeTextIsPlain(c.sizeText);
    var k := j - |c.sizeText|;
    if 0 <= k < |SEPARATOR| {
      assert Head(c, signature)[j] == SEPARATOR[k];
    } else if k >= |SEPARATOR| {
      assert Head(c, signature)[j] == signature[k - |SEPARATOR|];
    }
  }

  /** Reading gives back what was rendered. */
  lemma RenderedIsRead(c: Chunk, signature: Key, rest: Key, max: int)
    requires ValidChunk(c) && InLine(signature)
    ensures ReadFrame(Render(c, signature) + rest, max) ==
              if max > 0 && |c.data| > max then Bad(TooLarge) else Good(signature, c.data, |Render(c, signature)|)
    ensures (Render(c, signature) + rest)[|Render(c, signature)|..] == rest
  {
    var line := Head(c, signature) + c.eol;
    var tail := c.data + [CR, LF] + rest;
    var body := Render(c, signature) + rest;
    assert body == line + tail;
    LineIsRead(c, signature, tail);
    HeadCuts(c, signature);
    assert body[..|line|] == line;
    var start := |line|;
    assert body[start..start + |c.data|] == c.data;
    assert body[start + |c.data|..start + |c.data| + 2] == [CR, LF];
  }

  predicate Fits(max: int, total: nat) {
    max > 0 ==> total <= max
  }

  /** A chunk is read back as it was rendered ... */
  predicate ReadsChunk(read: Key -> Frame, max: int, c: Chunk, signature: Key, rest: Key) {
    ValidChunk(c) && InLine(signature) ==>
      read(Render(c, signature) + rest)
          == (if Fits(max, |c.data|) then Good(signature, c.data, |Render(c, signature)|) else Bad(TooLarge))
  }

  /** ... and nothing else is read. */
  ghost predicate ReadsOnlyChunk(read: Key -> Frame, max: int, b: Key) {
    read(b).Good? ==> exists c :: FrontOf(b, read(b), max, c)
  }

  predicate FrontOf(b: Key, f: Frame, max: int, c: Chunk)
    requires f.Good?
  {
    ValidChunk(c) && c.data == f.data && Fits(max, |c.data|) && f.used <= |b|
        && b == Render(c, f.signature) + b[f.used..]
  }

  ghost predicate ReadsChunks(read: Key -> Frame, max: int) {
    && (forall c, signature, rest :: ReadsChunk(read, max, c, signature, rest))
    && (forall b :: ReadsOnlyChunk(read, max, b))
  }

  lemma FrameReaderReadsChunks(max: int)
    ensures ReadsChunks(FrameReader(max), max)
  {
    forall c, signature, rest ensures ReadsChunk(FrameReader(max), max, c, signature, rest) {
      if ValidChunk(c) && InLine(signature) {
        RenderedIsRead(c, signature, rest, max);
      }
    }
    forall b ensures ReadsOnlyChunk(FrameReader(max), max, b) {
      if ReadFrame(b, max).Good? {
        var c := ReadWasRendered(b, max);
        assert FrontOf(b, ReadFrame(b, max), max, c);
      }
    }
  }

  /** The outcome of a payload under the size limit. */
  function Limited(payload: Key, spooled: nat, max: int): Outcome {
    if Fits(max, spooled + |payload|) then Accepted(payload) else Rejected(TooLarge)
  }

  /** What decoding does with a rendered chunk in front. */
  lemma ChunkDecodes(body: Key, c: Chunk, read: Key -> Frame, sign: (Key, Key) -> Key, previous: Key, spooled: nat,
                     max: int, behind: Key)
    requires Reads(read) && ReadsChunks(read, max)
    requires ValidChunk(c) && SignsInLine(sign) && Fits(max, spooled)
             && body == Render(c, sign(previous, c.data)) + behind
    ensures Decode(body, read, sign, previous, spooled, max) ==
              if !Fits(max, spooled + |c.data|) then Rejected(TooLarge)
              else if c.data == [] then Accepted([])
              else Decode(behind, read, sign, sign(previous, c.data), spooled + |c.data|, max).Behind(c.data)
  {
    var r := Render(c, sign(previous, c.data));
    assert ReadsChunk(read, max, c, sign(previous, c.data), behind);
    assert read(r + behind).Good? ==> (r + behind)[|r|..] == behind;
  }

  lemma CombineChunk(whole: Outcome, behind: Outcome, data: Key, payload: Key, spooled: nat, max: int)
    requires whole == if !Fits(max, spooled + |data|) then Rejected(TooLarge) else if data == [] then Accepted([])
             else behind.Behind(data)
    requires data == [] ==> payload == []
    requires data != [] && Fits(max, spooled + |data|) ==> behind == Limited(payload, spooled + |data|, max)
    ensures whole == Limited(data + payload, spooled, max)
  {
  }

  /** A stream decodes to the concatenation of its chunks, whatever follows it,
      or is too large. */
  lemma {:induction false} StreamsDecode(body: Key, cs: seq<Chunk>, read: Key -> Frame, sign: (Key, Key) -> Key,
                                         previous: Key, spooled: nat, max: int, rest: Key)
    requires Reads(read) && ReadsChunks(read, max)
    requires IsStream(cs) && SignsInLine(sign) && Fits(max, spooled) && body == RenderAll(cs, sign, previous) + rest
    ensures Decode(body, read, sign, previous, spooled, max) == Limited(Payload(cs), spooled, max)
    decreases |cs|
  {
    var c, signature := cs[0], sign(previous, cs[0].data);
    var behind := RenderAll(cs[1..], sign, signature) + rest;
    FrontChunk(cs, sign, previous, rest);
    ChunkDecodes(body, c, read, sign, previous, spooled, max, behind);
    if |cs| > 1 && Fits(max, spooled + |c.data|) {
      StreamsDecode(behind, cs[1..], read, sign, signature, spooled + |c.data|, max, rest);
    } else if |cs| == 1 {
      assert Payload(cs[1..]) == [];
    }
    CombineChunk(Decode(body, read, sign, previous, spooled, max),
                 if c.data == [] then Accepted([]) else Decode(behind, read, sign, signature, spooled + |c.data|, max),
                 c.data, Payload(cs[1..]), spooled, max);
  }

  lemma BodyDecodes(body: Key, cs: seq<Chunk>, sign: (Key, Key) -> Key, seed: Key, max: int, rest: Key)
    requires IsStream(cs) && SignsInLine(sign) && body == RenderAll(cs, sign, seed) + rest
    ensures DecodeBody(body, sign, seed, max) == Limited(Payload(cs), 0, max)
  {
    FrameReaderReads(max);
    FrameReaderReadsChunks(max);
    StreamsDecode(body, cs, FrameReader(max), sign, seed, 0, max, rest);
  }

  lemma FrontChunk(cs: seq<Chunk>, sign: (Key, Key) -> Key, previous: Key, rest: Key)
    requires cs != []
    ensures var signature := sign(previous, cs[0].data);
            RenderAll(cs, sign, previous) + rest
                == Render(cs[0], signature) + (RenderAll(cs[1..], sign, signature) + rest)
  {
  }

  lemma ConsStream(c: Chunk, ds: seq<Chunk>)
    requires IsStream(ds) && ValidChunk(c) && c.data != []
    ensures IsStream([c] + ds) && Payload([c] + ds) == c.data + Payload(ds)
  {
    assert ([c] + ds)[1..] == ds;
  }

  lemma ConsRender(c: Chunk, ds: seq<Chunk>, sign: (Key, Key) -> Key, previous: Key)
    ensures RenderAll([c] + ds, sign, previous)
            == Render(c, sign(previous, c.data)) + RenderAll(ds, sign, sign(previous, c.data))
  {
    assert ([c] + ds)[1..] == ds;
  }

  /** What was read was rendered. */
  lemma ReadWasRendered(body: Key, max: int) returns (c: Chunk)
    requires ReadFrame(body, max).Good?
    ensures var f := ReadFrame(body, max);
            ValidChunk(c) && c.data == f.data && Fits(max, |c.data|) && body == Render(c, f.signature) + body[f.used..]
  {
    var f := ReadFrame(body, max);
    var nl := IndexOf(body, [LF]);
    var line := body[..nl + 1];
    var header := TrimRight(line);
    var e := LineEnd(body, nl);
    c := Chunk(header[..IndexOf(header, SEPARATOR)], e, f.data);
    HeaderIsHead(c, header, f.signature);
    FrameParts(body, nl + 1, |f.data|);
    Regroup(header, e, f.data, body[f.used..]);
  }

  /** What was trimmed off the header line is a line end. */
  lemma LineEnd(body: Key, nl: nat) returns (e: Key)
    requires IndexOf(body, [LF]) == nl < |body|
    ensures body[..nl + 1] == TrimRight(body[..nl + 1]) + e && IsEol(e)
  {
    e := TrimMeans(body[..nl + 1]);
    IndexFromIsFirst(body, [LF], 0);
    EolOfLine(body, nl, TrimRight(body[..nl + 1]), e);
  }

  lemma HeaderIsHead(c: Chunk, header: Key, signature: Key)
    requires IndexOf(header, SEPARATOR) >= 0
    requires c.sizeText == header[..IndexOf(header, SEPARATOR)]
             && signature == header[IndexOf(header, SEPARATOR) + |SEPARATOR|..]
    ensures header == Head(c, signature)
  {
    var cut := IndexOf(header, SEPARATOR);
    IndexFromIsFirst(header, SEPARATOR, 0);
    assert header == header[..cut] + header[cut..cut + |SEPARATOR|] + header[cut + |SEPARATOR|..];
  }

  lemma FrameParts(body: Key, start: nat, n: nat)
    requires start + n + 2 <= |body| && body[start + n..start + n + 2] == [CR, LF]
    ensures body == body[..start] + (body[start..start + n] + [CR, LF] + body[start + n + 2..])
  {
    assert body == body[..start] + body[start..start + n] + body[start + n..start + n + 2] + body[start + n + 2..];
  }

  lemma Regroup(head: Key, eol: Key, data: Key, rest: Key)
    ensures (head + eol) + (data + [CR, LF] + rest) == (head + eol + data + [CR, LF]) + rest
  {
  }

  lemma EolOfLine(body: Key, nl: nat, header: Key, e: Key)
    requires At(body, [LF], nl) && forall j :: 0 <= j < nl ==> !At(body, [LF], j)
    requires body[..nl + 1] == header + e && forall i :: 0 <= i < |e| ==> e[i] in {CR, LF}
    requires header != [] ==> header[|header| - 1] !in {CR, LF}
    ensures IsEol(e)
  {
    assert body[nl] == body[nl..nl + 1][0] == LF;
    assert (header + e)[nl] == LF;
    assert e != [];
    forall i | 0 <= i < |e| - 1 ensures e[i] == CR {
      var j := |header| + i;
      assert e[i] == (header + e)[j] == body[j];
      assert body[j..j + 1] == [body[j]];
      assert !At(body, [LF], j);
    }
  }

  /** What an accepted body has in front. */
  lemma AcceptedFront(body: Key, read: Key -> Frame, sign: (Key, Key) -> Key, previous: Key, spooled: nat, max: int)
      returns (c: Chunk, behind: Key)
    requires Reads(read) && ReadsChunks(read, max)
    requires Decode(body, read, sign, previous, spooled, max).Accepted? && Fits(max, spooled)
    ensures |behind| < |body| && ValidChunk(c) && body == Render(c, sign(previous, c.data)) + behind
            && Fits(max, spooled + |c.data|)
    ensures c.data == [] ==> Decode(body, read, sign, previous, spooled, max) == Accepted([])
    ensures c.data != [] ==> Decode(body, read, sign, previous, spooled, max) ==
                               Decode(behind, read, sign, sign(previous, c.data), spooled + |c.data|,
                                   max).Behind(c.data)
  {
    c := ReadChunk(read, max, body);
    behind := body[read(body).used..];
  }

  lemma ReadChunk(read: Key -> Frame, max: int, body: Key) returns (c: Chunk)
    requires ReadsChunks(read, max) && read(body).Good?
    ensures FrontOf(body, read(body), max, c)
  {
    assert ReadsOnlyChunk(read, max, body);
    c :| FrontOf(body, read(body), max, c);
  }

  /** Whatever decodes starts with a stream of chunks. */
  lemma {:induction false} DecodedIsStream(body: Key, read: Key -> Frame, sign: (Key, Key) -> Key, previous: Key,
                                           spooled: nat, max: int)
      returns (cs: seq<Chunk>, rest: Key)
    requires Reads(read) && ReadsChunks(read, max)
    requires Decode(body, read, sign, previous, spooled, max).Accepted? && Fits(max, spooled)
    ensures IsStream(cs) && body == RenderAll(cs, sign, previous) + rest
    ensures Decode(body, read, sign, previous, spooled, max).payload == Payload(cs)
            && Fits(max, spooled + |Payload(cs)|)
    decreases |body|
  {
    var c, behind := AcceptedFront(body, read, sign, previous, spooled, max);
    if c.data == [] {
      cs, rest := [c], behind;
      SoleChunk(c, sign, previous);
    } else {
      var ds, signature := [], sign(previous, c.data);
      ds, rest := DecodedIsStream(behind, read, sign, signature, spooled + |c.data|, max);
      cs := [c] + ds;
      StreamGrows(body, c, ds, sign, previous, rest);
    }
  }

  lemma StreamGrows(body: Key, c: Chunk, ds: seq<Chunk>, sign: (Key, Key) -> Key, previous: Key, rest: Key)
    requires IsStream(ds) && ValidChunk(c) && c.data != []
    requires body == Render(c, sign(previous, c.data)) + (RenderAll(ds, sign, sign(previous, c.data)) + rest)
    ensures IsStream([c] + ds) && body == RenderAll([c] + ds, sign, previous) + rest
    ensures Payload([c] + ds) == c.data + Payload(ds)
  {
    ConsStream(c, ds);
    ConsRender(c, ds, sign, previous);
    Associate(Render(c, sign(previous, c.data)), RenderAll(ds, sign, sign(previous, c.data)), rest);
  }

  lemma SoleChunk(c: Chunk, sign: (Key, Key) -> Key, previous: Key)
    requires ValidChunk(c) && c.data == []
    ensures IsStream([c]) && Payload([c]) == [] && RenderAll([c], sign, previous) == Render(c, sign(previous, []))
  {
    assert [c][1..] == [];
    assert RenderAll([], sign, sign(previous, [])) == [];
    assert Payload([]) == [];
  }

  lemma Associate(a: Key, b: Key, c: Key)
    ensures a + (b + c) == (a + b) + c
  {
  }

  // ----- the same, written out -----

  /** `s` spells the digits, those from 10 on in upper or lower case. */
  predicate SpelledBy(s: Key, digits: seq<nat>) {
    && |s| == |digits|
    && forall i :: 0 <= i < |s| ==>
                     if digits[i] < 10 then s[i] == 48 + digits[i]
                     else digits[i] < 16 && (s[i] == 55 + digits[i] || s[i] == 87 + digits[i])
  }

  /** The number with these digits, the first one the highest. */
  function Base16(digits: seq<nat>): nat {
    if digits == [] then 0 else 16 * Base16(digits[..|digits| - 1]) + digits[|digits| - 1]
  }

  /** A size is spelled by hexadecimal digits, with a plus sign or a zero's minus sign at will. */
  ghost predicate Announces(s: Key, n: nat) {
    n < 0x8000_0000_0000_0000 && exists sign, text :: s == sign + text && MaySign(sign, n) && Means(text, n)
  }

  predicate MaySign(sign: Key, n: nat) {
    sign == [] || sign == [43] || (sign == [45] && n == 0)
  }

  ghost predicate Means(text: Key, n: nat) {
    exists digits :: digits != [] && SpelledBy(text, digits) && Base16(digits) == n
  }

  lemma TextMeans(text: Key, n: nat)
    ensures Means(text, n) <==> text != [] && AllHex(text) && HexValue(text) == n
  {
    if AllHex(text) {
      var digits := HexIsSpelled(text);
      SpelledIsHex(text, digits);
    }
    if Means(text, n) {
      var digits :| digits != [] && SpelledBy(text, digits) && Base16(digits) == n;
      SpelledIsHex(text, digits);
    }
  }

  lemma {:induction false} SpelledIsHex(s: Key, digits: seq<nat>)
    requires SpelledBy(s, digits)
    ensures AllHex(s) && HexValue(s) == Base16(digits)
  {
    if s != [] {
      SpelledIsHex(s[..|s| - 1], digits[..|s| - 1]);
    }
  }

  lemma {:induction false} HexIsSpelled(s: Key) returns (digits: seq<nat>)
    requires AllHex(s)
    ensures SpelledBy(s, digits)
  {
    if s == [] {
      digits := [];
    } else {
      var front := HexIsSpelled(s[..|s| - 1]);
      digits := front + [DigitValue(s[|s| - 1])];
      assert forall i :: 0 <= i < |s| - 1 ==> s[i] == s[..|s| - 1][i] && digits[i] == front[i];
    }
  }

  /** Which texts are read as a size. */
  lemma SizeMeans(s: Key, n: nat)
    ensures SizeOf(s) == Some(n) <==> Announces(s, n)
  {
    if SizeOf(s) == Some(n) {
      var cut := if Signed(s) then 1 else 0;
      TextMeans(s[cut..], n);
      assert s == s[..cut] + s[cut..];
      assert cut == 1 ==> s[..cut] == [s[0]];
      assert MaySign(s[..cut], n);
    }
    if Announces(s, n) {
      var sign, text :| s == sign + text && MaySign(sign, n) && Means(text, n);
      TextMeans(text, n);
      SignedText(s, sign, text, n);
    }
  }

  lemma SignedText(s: Key, sign: Key, text: Key, n: nat)
    requires s == sign + text && MaySign(sign, n) && text != [] && AllHex(text) && HexValue(text) == n < TWO63
    ensures SizeOf(s) == Some(n)
  {
    AllHexMeans(text);
    if sign == [] {
      assert s == text;
    } else {
      assert s[1..] == text;
    }
  }

  /** The bytes of a chunk on the wire. */
  lemma WireFormat(c: Chunk, signature: Key)
    ensures Render(c, signature) == c.sizeText
            + [59, 99, 104, 117, 110, 107, 45, 115, 105, 103, 110, 97, 116, 117, 114, 101, 61] + signature
            + c.eol + c.data + [13, 10]
  {
  }

  /** Every chunk announces the size of its data and ends its line; the last one and
      no other is empty. */
  ghost predicate WellFormed(cs: seq<Chunk>) {
    && cs != []
    && (forall i :: 0 <= i < |cs| ==> Announces(cs[i].sizeText, |cs[i].data|) && EndsLine(cs[i].eol))
    && (forall i :: 0 <= i < |cs| ==> (cs[i].data == [] <==> i == |cs| - 1))
  }

  /** Carriage returns and one line feed. */
  predicate EndsLine(eol: Key) {
    eol != [] && forall i :: 0 <= i < |eol| ==> eol[i] == if i == |eol| - 1 then 10 else 13
  }

  lemma {:induction false} StreamMeans(cs: seq<Chunk>)
    ensures IsStream(cs) <==> WellFormed(cs)
  {
    if cs != [] {
      SizeMeans(cs[0].sizeText, |cs[0].data|);
      assert IsEol(cs[0].eol) <==> EndsLine(cs[0].eol);
      if |cs| > 1 {
        StreamMeans(cs[1..]);
        if WellFormed(cs) {
          assert forall i :: 0 <= i < |cs[1..]| ==> cs[1..][i] == cs[i + 1];
        }
        if WellFormed(cs[1..]) && ValidChunk(cs[0]) && cs[0].data != [] {
          assert forall i :: 1 <= i < |cs| ==> cs[i] == cs[1..][i - 1];
        }
      }
    }
  }

  ghost predicate StartsWithStream(body: Key, sign: (Key, Key) -> Key, seed: Key, payload: Key) {
    exists cs, rest :: WellFormed(cs) && body == RenderAll(cs, sign, seed) + rest && payload == Payload(cs)
  }

  /** A body is accepted with a payload if and only if it starts with a stream of
      chunks, signed in a chain from the seed, that carries that payload within
      the limit. */
  lemma AcceptedIffStream(body: Key, sign: (Key, Key) -> Key, seed: Key, max: int, payload: Key)
    requires SignsInLine(sign)
    ensures DecodeBody(body, sign, seed, max) == Accepted(payload)
            <==> StartsWithStream(body, sign, seed, payload) && (max > 0 ==> |payload| <= max)
  {
    if DecodeBody(body, sign, seed, max) == Accepted(payload) {
      AcceptedIsStream(body, sign, seed, max, payload);
    }
    if StartsWithStream(body, sign, seed, payload) && (max > 0 ==> |payload| <= max) {
      var cs, rest :| WellFormed(cs) && body == RenderAll(cs, sign, seed) + rest && payload == Payload(cs);
      StreamMeans(cs);
      BodyDecodes(body, cs, sign, seed, max, rest);
    }
  }

  lemma AcceptedIsStream(body: Key, sign: (Key, Key) -> Key, seed: Key, max: int, payload: Key)
    requires DecodeBody(body, sign, seed, max) == Accepted(payload)
    ensures StartsWithStream(body, sign, seed, payload) && Fits(max, |payload|)
  {
    FrameReaderReads(max);
    FrameReaderReadsChunks(max);
    var cs, rest := DecodedIsStream(body, FrameReader(max), sign, seed, 0, max);
    StreamMeans(cs);
  }

  // ----- what clients send -----

  function HexDigit(v: nat, upper: bool): Byte
    requires v < 16
  {
    if v < 10 then 48 + v else if upper then 55 + v else 87 + v
  }

  /** The hexadecimal digits of a number; `upper` chooses the case digit by digit. */
  function HexText(n: nat, upper: nat -> bool): (s: Key)
    ensures s != []
  {
    if n < 16 then [HexDigit(n, upper(n))] else HexText(n / 16, upper) + [HexDigit(n % 16, upper(n))]
  }

  lemma {:induction false} HexTextMeans(n: nat, upper: nat -> bool)
    ensures AllHex(HexText(n, upper)) && HexValue(HexText(n, upper)) == n && !Signed(HexText(n, upper))
  {
    if n >= 16 {
      HexTextMeans(n / 16, upper);
      var front := HexText(n / 16, upper);
      assert HexText(n, upper)[..|front|] == front;
    }
  }

  function ChunkOf(data: Key, upper: nat -> bool): Chunk {
    Chunk(HexText(|data|, upper), [13, 10], data)
  }

  function Encode(datas: seq<Key>, upper: nat -> bool): seq<Chunk> {
    if datas == [] then [ChunkOf([], upper)] else [ChunkOf(datas[0], upper)] + Encode(datas[1..], upper)
  }

  function Concat(datas: seq<Key>): Key {
    if datas == [] then [] else datas[0] + Concat(datas[1..])
  }

  lemma {:induction false} EncodeIsStream(datas: seq<Key>, upper: nat -> bool)
    requires forall i :: 0 <= i < |datas| ==> 0 < |datas[i]| < TWO63
    ensures IsStream(Encode(datas, upper)) && Payload(Encode(datas, upper)) == Concat(datas)
  {
    if datas == [] {
      HexTextMeans(0, upper);
    } else {
      HexTextMeans(|datas[0]|, upper);
      EncodeIsStream(datas[1..], upper);
      ConsStream(ChunkOf(datas[0], upper), Encode(datas[1..], upper));
    }
  }

  /** Round trip: the chunks of any payload, with sizes in digits of either case and
      correctly signed, decode to that payload exactly if it is within the limit. */
  lemma EncodedDecodes(body: Key, datas: seq<Key>, upper: nat -> bool, sign: (Key, Key) -> Key, seed: Key, max: int)
    requires SignsInLine(sign) && forall i :: 0 <= i < |datas| ==> 0 < |datas[i]| < 0x8000_0000_0000_0000
    requires body == RenderAll(Encode(datas, upper), sign, seed)
    ensures DecodeBody(body, sign, seed, max) ==
              if max > 0 && |Concat(datas)| > max then Rejected(TooLarge) else Accepted(Concat(datas))
  {
    EncodeIsStream(datas, upper);
    assert body == RenderAll(Encode(datas, upper), sign, seed) + [];
    BodyDecodes(body, Encode(datas, upper), sign, seed, max, []);
  }
}
