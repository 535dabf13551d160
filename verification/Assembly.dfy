/** What objects look like on disk, and how an upload in parts becomes one object:
    `PutObject`, `GetObject`, `CompleteMultipartUpload`. Encryption, compression
    and digests are parameters. */
module Assembly {
  import opened Keys
  import opened Sequences
  import opened Records
  import opened Counter
  import CtrReadSeeker
  import Versioning

  /** `block(key)` is the block cipher under a customer key; `md5` yields a digest. */
  datatype Codec = Codec(
    block: Key -> (Key -> Key),
    gzip: Key -> Key,
    gunzip: Key -> Option<Key>,
    md5: Key -> Key,
    hex: Key -> Key,
    unhex: Key -> Option<Key>)

  /** All that is asked of compression. */
  ghost predicate Unzips(codec: Codec) {
    forall d :: codec.gunzip(codec.gzip(d)) == Some(d)
  }

  datatype Ssec = Ssec(key: Key, keyMD5: Key)

  datatype Fault =
    | InvalidArgument | InvalidDigest | EntityTooLarge | BadRequest
    | NoSuchUpload | InvalidPartOrder | InvalidPart | EntityTooSmall | Unreadable

  datatype Result<T> = Ok(value: T) | Err(fault: Fault)

  datatype ETag = Whole(hex: Key) | OfParts(hex: Key, parts: nat)

  /** An object: its file and what its record says about it. */
  datatype Stored = Stored(file: Key, size: nat, etag: ETag, compressed: bool, keyMD5: Option<Key>)

  function KeyOf(params: Option<Ssec>): Option<Key> {
    if params.Some? then Some(params.value.key) else None
  }

  function DigestOf(params: Option<Ssec>): Option<Key> {
    if params.Some? then Some(params.value.keyMD5) else None
  }

  /** The customer key must be presented exactly when it was used. */
  function CheckKey(stored: Option<Key>, params: Option<Ssec>): Option<Fault> {
    match stored
    case Some(md5) =>
      if params.None? then Some(InvalidArgument)
      else if params.value.keyMD5 != md5 then Some(InvalidDigest)
      else None
    case None => if params.Some? then Some(InvalidArgument) else None
  }

  // ----- sealing and opening -----

  /** Bytes `from..` of the counter-mode encryption of a text that has `data` there. */
  function Crypt(block: Key -> Key, iv: Key, from: nat, data: Key): Key {
    seq(|data|, i requires 0 <= i < |data| => Xor(data[i], Pad(block, iv, from + i)))
  }

  function Encrypted(codec: Codec, key: Option<Key>, iv: Key, body: Key): Key {
    if key.Some? then iv + Crypt(codec.block(key.value), iv, 0, body) else body
  }

  function Decrypted(codec: Codec, key: Option<Key>, file: Key): Option<Key> {
    if key.None? then Some(file)
    else if |file| < 16 then None
    else Some(Crypt(codec.block(key.value), file[..16], 0, file[16..]))
  }

  function Packed(codec: Codec, compressed: bool, data: Key): Key {
    if compressed then codec.gzip(data) else data
  }

  function Sealed(codec: Codec, key: Option<Key>, iv: Key, compressed: bool, data: Key): Key {
    Encrypted(codec, key, iv, Packed(codec, compressed, data))
  }

  function Opened(codec: Codec, key: Option<Key>, compressed: bool, file: Key): Option<Key> {
    match Decrypted(codec, key, file)
    case None => None
    case Some(body) => if compressed then codec.gunzip(body) else Some(body)
  }

  lemma CryptTwice(block: Key -> Key, iv: Key, data: Key)
    ensures Crypt(block, iv, 0, Crypt(block, iv, 0, data)) == data
  {
    var c := Crypt(block, iv, 0, data);
    forall i | 0 <= i < |data| ensures Crypt(block, iv, 0, c)[i] == data[i] {
      XorTwice(data[i], Pad(block, iv, i));
    }
  }

  lemma CryptSplits(block: Key -> Key, iv: Key, from: nat, a: Key, b: Key)
    ensures Crypt(block, iv, from, a + b) == Crypt(block, iv, from, a) + Crypt(block, iv, from + |a|, b)
  {
  }

  lemma DecryptedEncrypted(codec: Codec, key: Option<Key>, iv: Key, body: Key)
    requires |iv| == 16
    ensures Decrypted(codec, key, Encrypted(codec, key, iv, body)) == Some(body)
  {
    if key.Some? {
      var e := Crypt(codec.block(key.value), iv, 0, body);
      assert (iv + e)[..16] == iv && (iv + e)[16..] == e;
      CryptTwice(codec.block(key.value), iv, body);
    }
  }

  /** Opening undoes sealing, encrypted or not, compressed or not. */
  lemma OpenedSealed(codec: Codec, key: Option<Key>, iv: Key, compressed: bool, data: Key)
    requires Unzips(codec) && |iv| == 16
    ensures Opened(codec, key, compressed, Sealed(codec, key, iv, compressed, data)) == Some(data)
  {
    DecryptedEncrypted(codec, key, iv, Packed(codec, compressed, data));
  }

  // ----- writing a file -----

  /** The chain of writers over a new file: compression, encryption, file. */
  class ObjectWriter {
    const codec: Codec
    const key: Option<Key>
    const iv: Key
    const compressed: bool
    var file: Key
    var unzipped: Key
    var used: nat
    ghost var written: Key

    ghost predicate Valid()
      reads this
    {
      if compressed then file == Encrypted(codec, key, iv, []) && used == 0 && unzipped == written
      else file == Encrypted(codec, key, iv, written) && (key.Some? ==> used == |written|)
    }

    constructor (codec: Codec, key: Option<Key>, iv: Key, compressed: bool)
      ensures Valid() && written == []
      ensures this.codec == codec && this.key == key && this.iv == iv && this.compressed == compressed
    {
      this.codec, this.key, this.iv, this.compressed := codec, key, iv, compressed;
      file := if key.Some? then iv else [];
      unzipped, used, written := [], 0, [];
      new;
      assert key.Some? ==> iv == Encrypted(codec, key, iv, []);
    }

    /** The encrypting writer: the key stream goes on where it stopped. */
    method Emit(p: Key)
      modifies this`file, this`used
      ensures key.None? ==> file == old(file) + p && used == old(used)
      ensures key.Some? ==>
              file == old(file) + Crypt(codec.block(key.value), iv, old(used), p)
              && used == old(used) + |p|
    {
      if key.Some? {
        file := file + Crypt(codec.block(key.value), iv, used, p);
        used := used + |p|;
      } else {
        file := file + p;
      }
    }

    method Write(p: Key)
      requires Valid()
      modifies this
      ensures Valid() && written == old(written) + p
    {
      if compressed {
        unzipped := unzipped + p;
      } else {
        Emit(p);
        if key.Some? {
          CryptSplits(codec.block(key.value), iv, 0, written, p);
        }
      }
      written := written + p;
    }

    /** Closing the compressor flushes it into the encryption. */
    method Close()
      requires Valid()
      modifies this
      ensures file == Sealed(codec, key, iv, compressed, written) && written == old(written)
    {
      if compressed {
        Emit(codec.gzip(unzipped));
        if key.Some? {
          assert Encrypted(codec, key, iv, []) == iv;
        }
      }
    }
  }

  // ----- PutObject and GetObject -----

  function PutResult(codec: Codec, data: Key, size: int, params: Option<Ssec>, compressed: bool, iv: Key,
                     max: int): Result<Stored> {
    if max > 0 && size > max then Err(EntityTooLarge)
    else if max > 0 && |data| > max then Err(EntityTooLarge)
    else if size >= 0 && |data| != size then Err(BadRequest)
    else Ok(Stored(Sealed(codec, KeyOf(params), iv, compressed, data), |data|, Whole(codec.hex(codec.md5(data))),
         compressed, DigestOf(params)))
  }

  /** What is stored of the data, before encryption. */
  function PackedBody(codec: Codec, compressed: bool, data: Key): Key {
    if compressed then codec.gzip(data) else data
  }

  /** The file is the body; with a customer key it is the IV and then the body, each byte
      combined with the key stream that starts at the IV. */
  predicate HoldsBody(codec: Codec, file: Key, params: Option<Ssec>, iv: Key, body: Key) {
    if params.None? then file == body
    else
      && |file| == |iv| + |body| && file[..|iv|] == iv
      && forall q :: 0 <= q < |body| ==> file[|iv| + q] == Xor(body[q], Pad(codec.block(params.value.key), iv, q))
  }

  /** Who may read: with the key's digest on record exactly those who present it, and
      without one those who present none. */
  lemma ReadingNeedsTheKey(codec: Codec, o: Stored, params: Option<Ssec>)
    ensures o.keyMD5.Some? && params.None? ==> GetObject(codec, o, params) == Err(InvalidArgument)
    ensures o.keyMD5.None? && params.Some? ==> GetObject(codec, o, params) == Err(InvalidArgument)
    ensures o.keyMD5.Some? && params.Some? && params.value.keyMD5 != o.keyMD5.value ==>
              GetObject(codec, o, params) == Err(InvalidDigest)
    ensures o.keyMD5.None? && params.None? && !o.compressed ==> GetObject(codec, o, params) == Ok(o.file)
  {
  }

  /** Store what the client sends; a declared size of -1 is unknown. */
  method PutObject(codec: Codec, data: Key, size: int, params: Option<Ssec>, compressed: bool, iv: Key, max: int)
      returns (r: Result<Stored>)
    ensures r == PutResult(codec, data, size, params, compressed, iv, max)
    ensures r.Ok? <==> (max > 0 ==> |data| <= max) && (size >= 0 ==> size == |data|)
    ensures r == Err(EntityTooLarge) <==> max > 0 && (size > max || |data| > max)
    ensures r.Err? && r != Err(EntityTooLarge) ==> r == Err(BadRequest)
    ensures r.Ok? ==> r.value.size == |data| && r.value.etag == Whole(codec.hex(codec.md5(data)))
    ensures r.Ok? ==> HoldsBody(codec, r.value.file, params, iv, PackedBody(codec, compressed, data))
    ensures r.Ok? ==> r.value.compressed == compressed
    ensures r.Ok? ==> r.value.keyMD5 == if params.Some? then Some(params.value.keyMD5) else None
  {
    if max > 0 && size > max {
      return Err(EntityTooLarge);
    }
    var writer := new ObjectWriter(codec, KeyOf(params), iv, compressed);
    var capped := if max > 0 && |data| > max + 1 then data[..max + 1] else data;
    writer.Write(capped);
    var written := |capped|;
    if max > 0 && written > max {
      return Err(EntityTooLarge);
    }
    writer.Close();
    if size >= 0 && written != size {
      return Err(BadRequest);
    }
    assert writer.written == data;
    r := Ok(Stored(writer.file, written, Whole(codec.hex(codec.md5(capped))), compressed, DigestOf(params)));
  }

  function GetObject(codec: Codec, o: Stored, params: Option<Ssec>): Result<Key> {
    match CheckKey(o.keyMD5, params)
    case Some(fault) => Err(fault)
    case None =>
      match Opened(codec, KeyOf(params), o.compressed, o.file)
      case None => Err(Unreadable)
      case Some(data) => Ok(data)
  }

  /** What was put is got back whole by whoever presents the same key, with its
      size on record; without the key, or with another digest, nothing is. */
  lemma PutThenGet(codec: Codec, data: Key, size: int, params: Option<Ssec>, compressed: bool, iv: Key, max: int,
                   reader: Option<Ssec>)
    requires Unzips(codec) && |iv| == 16
    requires PutResult(codec, data, size, params, compressed, iv, max).Ok?
    ensures var o := PutResult(codec, data, size, params, compressed, iv, max).value;
            && GetObject(codec, o, params) == Ok(data) && o.size == |data|
            && (DigestOf(reader) != DigestOf(params) ==> GetObject(codec, o, reader).Err?)
  {
    OpenedSealed(codec, KeyOf(params), iv, compressed, data);
  }

  /** Reading an encrypted object at any position gives the bytes put there: what
      CtrReadSeeker.Reader serves is the object. */
  lemma SeekableReadsAreTheObject(codec: Codec, key: Key, iv: Key, data: Key, q: nat)
    requires |iv| == 16 && q < |data|
    ensures var file := Sealed(codec, Some(key), iv, false, data);
            && file[..16] == iv && |file| == 16 + |data|
            && CtrReadSeeker.PlainAt(file, codec.block(key), iv, q) == data[q]
  {
    XorTwice(data[q], Pad(codec.block(key), iv, q));
  }

  // ----- CompleteMultipartUpload -----

  datatype PartInfo = PartInfo(number: int, etag: Key, size: nat)
  datatype CompletePart = CompletePart(number: int, etag: Key)
  datatype Upload = Upload(parts: seq<PartInfo>, keyMD5: Option<Key>, compressed: bool)

  const MIN_PART_SIZE: nat := 5242880

  function InsertPart(p: CompletePart, ps: seq<CompletePart>): seq<CompletePart> {
    if ps == [] || p.number <= ps[0].number then [p] + ps else [ps[0]] + InsertPart(p, ps[1..])
  }

  /** The requested parts by part number. */
  function SortParts(ps: seq<CompletePart>): seq<CompletePart> {
    if ps == [] then [] else InsertPart(ps[0], SortParts(ps[1..]))
  }

  predicate InOrder(ps: seq<CompletePart>) {
    forall i, j :: 0 <= i < j < |ps| ==> ps[i].number <= ps[j].number
  }

  lemma {:induction false} InsertKeepsOrder(p: CompletePart, ps: seq<CompletePart>)
    requires InOrder(ps)
    ensures InOrder(InsertPart(p, ps))
    ensures InsertPart(p, ps)[0].number == (if ps == [] || p.number <= ps[0].number then p.number else ps[0].number)
  {
    if ps != [] && p.number > ps[0].number {
      InsertKeepsOrder(p, ps[1..]);
      PutInFront(ps[0], InsertPart(p, ps[1..]));
    }
  }

  lemma PutInFront(p: CompletePart, ps: seq<CompletePart>)
    requires InOrder(ps) && (ps != [] ==> p.number <= ps[0].number)
    ensures InOrder([p] + ps)
  {
    forall i | 0 < i < |ps| ensures p.number <= ps[i].number {
      assert ps[0].number <= ps[i].number;
    }
  }

  lemma {:induction false} InsertAddsOne(p: CompletePart, ps: seq<CompletePart>)
    ensures multiset(InsertPart(p, ps)) == multiset{p} + multiset(ps)
  {
    if ps != [] && p.number > ps[0].number {
      InsertAddsOne(p, ps[1..]);
      InsertedBehindFirst(p, ps, InsertPart(p, ps[1..]));
    } else {
      FirstApart([p] + ps);
    }
  }

  lemma {:induction false} SortSorts(ps: seq<CompletePart>)
    ensures InOrder(SortParts(ps)) && multiset(SortParts(ps)) == multiset(ps)
  {
    if ps != [] {
      SortSorts(ps[1..]);
      InsertKeepsOrder(ps[0], SortParts(ps[1..]));
      InsertAddsOne(ps[0], SortParts(ps[1..]));
      FirstApart(ps);
    }
  }

  predicate Twice(ps: seq<CompletePart>) {
    exists i :: 0 < i < |ps| && ps[i].number == ps[i - 1].number
  }

  const QUOTE: Byte := 34

  /** `strings.Trim(s, "\"")`. */
  function TrimQuotes(s: Key): Key {
    if s != [] && s[0] == QUOTE then TrimQuotes(s[1..])
    else if s != [] && s[|s| - 1] == QUOTE then TrimQuotes(s[..|s| - 1])
    else s
  }

  function Quotes(n: nat): Key {
    seq(n, _ => 34)
  }

  /** `core` is what is left of the text between the quotes around it. */
  ghost predicate IsCore(s: Key, core: Key) {
    && (core != [] ==> core[0] != 34 && core[|core| - 1] != 34)
    && exists a, b :: s == Quotes(a) + core + Quotes(b)
  }

  lemma {:induction false} TrimmedOf(a: nat, core: Key, b: nat)
    requires core != [] ==> core[0] != 34 && core[|core| - 1] != 34
    ensures TrimQuotes(Quotes(a) + core + Quotes(b)) == core
    decreases a + b
  {
    var s := Quotes(a) + core + Quotes(b);
    if a > 0 {
      assert s[1..] == Quotes(a - 1) + core + Quotes(b);
      TrimmedOf(a - 1, core, b);
    } else if b > 0 && core != [] {
      assert s[..|s| - 1] == Quotes(a) + core + Quotes(b - 1);
      TrimmedOf(a, core, b - 1);
    } else if b > 0 {
      assert s[1..] == Quotes(0) + core + Quotes(b - 1);
      TrimmedOf(a, core, b - 1);
    } else {
      assert s == core;
    }
  }

  lemma {:induction false} TrimLeaves(s: Key) returns (a: nat, b: nat)
    ensures s == Quotes(a) + TrimQuotes(s) + Quotes(b)
    ensures TrimQuotes(s) != [] ==> TrimQuotes(s)[0] != 34 && TrimQuotes(s)[|TrimQuotes(s)| - 1] != 34
  {
    if s != [] && s[0] == QUOTE {
      var c;
      c, b := TrimLeaves(s[1..]);
      a := c + 1;
      assert s == [34] + s[1..];
    } else if s != [] && s[|s| - 1] == QUOTE {
      var c;
      a, c := TrimLeaves(s[..|s| - 1]);
      b := c + 1;
      assert s == s[..|s| - 1] + [34];
    } else {
      a, b := 0, 0;
    }
  }

  lemma TrimIsCore(s: Key, core: Key)
    ensures IsCore(s, core) <==> core == TrimQuotes(s)
  {
    var a, b := TrimLeaves(s);
    if IsCore(s, core) {
      var c: nat, d: nat :| s == Quotes(c) + core + Quotes(d);
      TrimmedOf(c, core, d);
    }
  }

  /** Two ETags are the same but for quotes around them. */
  ghost predicate SameTag(s: Key, t: Key) {
    exists core :: IsCore(s, core) && IsCore(t, core)
  }

  lemma SameTagIsTrimmed(s: Key, t: Key)
    ensures SameTag(s, t) <==> TrimQuotes(s) == TrimQuotes(t)
  {
    TrimIsCore(s, TrimQuotes(s));
    TrimIsCore(t, TrimQuotes(t));
    if TrimQuotes(s) == TrimQuotes(t) {
      assert IsCore(s, TrimQuotes(s)) && IsCore(t, TrimQuotes(s));
    }
    if core :| IsCore(s, core) && IsCore(t, core) {
      TrimIsCore(s, core);
      TrimIsCore(t, core);
    }
  }

  /** The record of a part; of several the last one counts. */
  function Uploaded(parts: seq<PartInfo>): map<int, PartInfo> {
    if parts == [] then map[] else Uploaded(parts[..|parts| - 1])[parts[|parts| - 1].number := parts[|parts| - 1]]
  }

  /** What is wrong with the part at position `i` of `n`. */
  function CheckPart(p: CompletePart, uploaded: map<int, PartInfo>, last: bool, anySize: bool): Option<Fault> {
    if p.number !in uploaded then Some(InvalidPart)
    else if TrimQuotes(uploaded[p.number].etag) != TrimQuotes(p.etag) then Some(InvalidPart)
    else if !anySize && !last && uploaded[p.number].size < MIN_PART_SIZE then Some(EntityTooSmall)
    else None
  }

  function CheckParts(ps: seq<CompletePart>, uploaded: map<int, PartInfo>, anySize: bool, i: nat): Option<Fault>
    requires i <= |ps|
    decreases |ps| - i
  {
    if i == |ps| then None
    else
      var fault := CheckPart(ps[i], uploaded, i == |ps| - 1, anySize);
      if fault.Some? then fault else CheckParts(ps, uploaded, anySize, i + 1)
  }

  /** The plain bytes of the parts, one after the other. */
  function Contents(codec: Codec, key: Option<Key>, files: map<int, Key>, ps: seq<CompletePart>, n: nat): Option<Key>
    requires n <= |ps|
  {
    if n == 0 then Some([])
    else
      var front := Contents(codec, key, files, ps, n - 1);
      if front.None? || ps[n - 1].number !in files then None
      else
        match Decrypted(codec, key, files[ps[n - 1].number])
        case None => None
        case Some(plain) => Some(front.value + plain)
  }

  function PartDigests(codec: Codec, ps: seq<CompletePart>, n: nat): Key
    requires n <= |ps|
  {
    if n == 0 then []
    else
      var b := codec.unhex(TrimQuotes(ps[n - 1].etag));
      PartDigests(codec, ps, n - 1) + if b.Some? && |b.value| == 16 then b.value else []
  }

  function MultipartETag(codec: Codec, ps: seq<CompletePart>, data: Key): ETag {
    var digests := PartDigests(codec, ps, |ps|);
    if |digests| > 0 then OfParts(codec.hex(codec.md5(digests)), |ps|) else Whole(codec.hex(codec.md5(data)))
  }

  function CompleteResult(codec: Codec, up: Upload, files: map<int, Key>, requested: seq<CompletePart>,
                          params: Option<Ssec>, iv: Key, anySize: bool): Result<Stored> {
    var ps := SortParts(requested);
    var key := if up.keyMD5.Some? then KeyOf(params) else None;
    if CheckKey(up.keyMD5, params).Some? then Err(CheckKey(up.keyMD5, params).value)
    else if Twice(ps) then Err(InvalidPartOrder)
    else if ps == [] then Err(InvalidPart)
    else if CheckParts(ps, Uploaded(up.parts), anySize, 0).Some?
            then Err(CheckParts(ps, Uploaded(up.parts), anySize, 0).value)
    else
      match Contents(codec, key, files, ps, |ps|)
      case None => Err(Unreadable)
      case Some(data) => Ok(Stored(Sealed(codec, key, iv, up.compressed, data), |data|,
                         MultipartETag(codec, ps, data), up.compressed, up.keyMD5))
  }

  method FindTwice(ps: seq<CompletePart>) returns (twice: bool)
    ensures twice <==> Twice(ps)
  {
    var i := 1;
    while i < |ps|
      invariant forall j :: 0 < j < i && j < |ps| ==> ps[j].number != ps[j - 1].number
    {
      if ps[i].number == ps[i - 1].number {
        return true;
      }
      i := i + 1;
    }
    return false;
  }

  method BuildLookup(parts: seq<PartInfo>) returns (uploaded: map<int, PartInfo>)
    ensures uploaded == Uploaded(parts)
  {
    uploaded := map[];
    for i := 0 to |parts|
      invariant uploaded == Uploaded(parts[..i])
    {
      assert parts[..i + 1][..i] == parts[..i];
      uploaded := uploaded[parts[i].number := parts[i]];
    }
    assert parts[..|parts|] == parts;
  }

  method ValidateParts(ps: seq<CompletePart>, uploaded: map<int, PartInfo>, anySize: bool)
      returns (fault: Option<Fault>)
    ensures fault == CheckParts(ps, uploaded, anySize, 0)
  {
    for i := 0 to |ps|
      invariant CheckParts(ps, uploaded, anySize, 0) == CheckParts(ps, uploaded, anySize, i)
    {
      var f := CheckPart(ps[i], uploaded, i == |ps| - 1, anySize);
      if f.Some? {
        return f;
      }
    }
    return None;
  }

  /** The copy loop: open each part under its own IV and write it through. */
  method CopyParts(codec: Codec, key: Option<Key>, files: map<int, Key>, ps: seq<CompletePart>, writer: ObjectWriter)
      returns (ok: bool, hashed: Key, total: nat)
    requires writer.Valid() && writer.written == []
    modifies writer
    ensures ok <==> Contents(codec, key, files, ps, |ps|).Some?
    ensures ok ==>
            writer.Valid() && hashed == writer.written == Contents(codec, key, files, ps, |ps|).value
            && total == |hashed|
  {
    hashed, total := [], 0;
    for i := 0 to |ps|
      invariant writer.Valid() && Contents(codec, key, files, ps, i) == Some(hashed) && hashed == writer.written
                && total == |hashed|
    {
      var number := ps[i].number;
      if number !in files || Decrypted(codec, key, files[number]).None? {
        CopyStops(codec, key, files, ps, i, |ps|);
        return false, hashed, total;
      }
      var plain := Decrypted(codec, key, files[number]).value;
      writer.Write(plain);
      hashed, total := hashed + plain, total + |plain|;
    }
    ok := true;
  }

  lemma {:induction false} CopyStops(codec: Codec, key: Option<Key>, files: map<int, Key>, ps: seq<CompletePart>,
                                     i: nat, n: nat)
    requires i < n <= |ps| && (ps[i].number !in files || Decrypted(codec, key, files[ps[i].number]).None?)
    ensures Contents(codec, key, files, ps, n).None?
  {
    if i < n - 1 {
      CopyStops(codec, key, files, ps, i, n - 1);
    }
  }

  /** Checks the request and builds the object's file from the parts. */
  method Assemble(codec: Codec, up: Upload, files: map<int, Key>, requested: seq<CompletePart>, params: Option<Ssec>,
                  iv: Key, anySize: bool)
      returns (r: Result<Stored>)
    ensures r == CompleteResult(codec, up, files, requested, params, iv, anySize)
  {
    var refused := CheckKey(up.keyMD5, params);
    if refused.Some? {
      return Err(refused.value);
    }
    var ps := SortParts(requested);
    var twice := FindTwice(ps);
    if twice {
      return Err(InvalidPartOrder);
    }
    if ps == [] {
      return Err(InvalidPart);
    }
    var uploaded := BuildLookup(up.parts);
    var fault := ValidateParts(ps, uploaded, anySize);
    if fault.Some? {
      return Err(fault.value);
    }
    var key := if up.keyMD5.Some? then KeyOf(params) else None;
    var writer := new ObjectWriter(codec, key, iv, up.compressed);
    var ok, hashed, total := CopyParts(codec, key, files, ps, writer);
    if !ok {
      return Err(Unreadable);
    }
    writer.Close();
    r := Ok(Stored(writer.file, total, MultipartETag(codec, ps, hashed), up.compressed, up.keyMD5));
  }

  /** The part of a bucket that completing an upload touches: the objects by key and
      version id, the uploads in progress by key and id, and their part files. */
  class Bucket {
    var objects: map<(Key, Key), Stored>
    var uploads: map<(Key, Key), Upload>
    var parts: map<Key, map<int, Key>>

    constructor ()
      ensures objects == map[] && uploads == map[] && parts == map[]
    {
      objects, uploads, parts := map[], map[], map[];
    }

    function FilesOf(uploadId: Key): map<int, Key>
      reads this
    {
      if uploadId in parts then parts[uploadId] else map[]
    }

    /** On success the object is on record under the version id that the bucket's
        versioning status calls for, and the upload and its files are gone; on any
        failure nothing has changed. */
    method CompleteMultipartUpload(codec: Codec, status: Versioning.Status, key: Key, uploadId: Key,
                                   requested: seq<CompletePart>, params: Option<Ssec>, iv: Key, newId: Key,
                                       anySize: bool)
        returns (r: Result<Stored>)
      modifies this
      ensures r == if (key, uploadId) !in old(uploads) then Err(NoSuchUpload)
                   else CompleteResult(codec, old(uploads)[(key, uploadId)], old(FilesOf(uploadId)), requested,
                        params, iv, anySize)
      ensures r.Ok? && status.Enabled? ==> objects == old(objects)[(key, newId) := r.value]
      ensures r.Ok? && status.Suspended? ==> objects == old(objects)[(key, [110, 117, 108, 108]) := r.value]
      ensures r.Ok? && status.Unversioned? ==> objects == old(objects)[(key, []) := r.value]
      ensures r.Ok? ==> uploads == old(uploads) - {(key, uploadId)} && parts == old(parts) - {uploadId}
      ensures r.Err? ==> objects == old(objects) && uploads == old(uploads) && parts == old(parts)
    {
      if (key, uploadId) !in uploads {
        return Err(NoSuchUpload);
      }
      r := Assemble(codec, uploads[(key, uploadId)], FilesOf(uploadId), requested, params, iv, anySize);
      if r.Ok? {
        var versionId := match status
          case Enabled => newId
          case Suspended => Versioning.NULL_ID
          case Unversioned => [];
        objects := objects[(key, versionId) := r.value];
        parts := parts - {uploadId};
        uploads := uploads - {(key, uploadId)};
      }
    }
  }

  // ----- what completing means -----

  /** A part's file as `UploadPart` leaves it: the plain bytes, or under a customer
      key an IV of its own and the encrypted bytes. */
  ghost predicate IsPartFile(codec: Codec, key: Option<Key>, file: Key, plain: Key) {
    exists iv :: |iv| == 16 && file == Encrypted(codec, key, iv, plain)
  }

  /** The plain bytes of the first `n` parts. */
  function Joined(plains: map<int, Key>, ps: seq<CompletePart>, n: nat): Key
    requires n <= |ps| && forall i :: 0 <= i < |ps| ==> ps[i].number in plains
  {
    if n == 0 then [] else Joined(plains, ps, n - 1) + plains[ps[n - 1].number]
  }

  lemma {:induction false} ContentsAreJoined(codec: Codec, key: Option<Key>, files: map<int, Key>,
                                             plains: map<int, Key>, ps: seq<CompletePart>, n: nat)
    requires n <= |ps| && forall i :: 0 <= i < |ps| ==> ps[i].number in plains
    requires forall m :: m in plains ==> m in files && IsPartFile(codec, key, files[m], plains[m])
    ensures Contents(codec, key, files, ps, n) == Some(Joined(plains, ps, n))
  {
    if n > 0 {
      ContentsAreJoined(codec, key, files, plains, ps, n - 1);
      var m := ps[n - 1].number;
      var iv :| |iv| == 16 && files[m] == Encrypted(codec, key, iv, plains[m]);
      DecryptedEncrypted(codec, key, iv, plains[m]);
    }
  }

  /** Completing and reading back gives the plain bytes of the chosen parts in
      ascending part number, with their total size on record, for every mix of
      encryption and compression. */
  lemma CompleteThenGet(codec: Codec, up: Upload, files: map<int, Key>, plains: map<int, Key>,
                        requested: seq<CompletePart>, params: Option<Ssec>, iv: Key, anySize: bool)
    requires Unzips(codec) && |iv| == 16
    requires CompleteResult(codec, up, files, requested, params, iv, anySize).Ok?
    requires forall m :: m in plains ==> m in files && IsPartFile(codec, KeyOf(params), files[m], plains[m])
    requires forall i :: 0 <= i < |SortParts(requested)| ==> SortParts(requested)[i].number in plains
    ensures var o := CompleteResult(codec, up, files, requested, params, iv, anySize).value;
            var whole := Joined(plains, SortParts(requested), |SortParts(requested)|);
            GetObject(codec, o, params) == Ok(whole) && o.size == |whole|
    ensures |SortParts(requested)| == |requested| && forall i, j ::
              0 <= i < j < |requested| ==> SortParts(requested)[i].number < SortParts(requested)[j].number
    ensures multiset(SortParts(requested)) == multiset(requested)
  {
    var ps := SortParts(requested);
    SortSorts(requested);
    assert |multiset(ps)| == |multiset(requested)|;
    StrictlyAscending(ps);
    CompletedContents(codec, up, files, plains, requested, params, iv, anySize);
    OpenedSealed(codec, KeyOf(params), iv, up.compressed, Joined(plains, ps, |ps|));
  }

  /** What a completed upload stores. */
  lemma CompletedContents(codec: Codec, up: Upload, files: map<int, Key>, plains: map<int, Key>,
                          requested: seq<CompletePart>, params: Option<Ssec>, iv: Key, anySize: bool)
    requires CompleteResult(codec, up, files, requested, params, iv, anySize).Ok?
    requires forall m :: m in plains ==> m in files && IsPartFile(codec, KeyOf(params), files[m], plains[m])
    requires forall i :: 0 <= i < |SortParts(requested)| ==> SortParts(requested)[i].number in plains
    ensures var (o, ps) := (CompleteResult(codec, up, files, requested, params, iv, anySize).value,
            SortParts(requested));
            var whole := Joined(plains, ps, |ps|);
            && o.file == Sealed(codec, KeyOf(params), iv, up.compressed, whole) && o.size == |whole|
            && o.compressed == up.compressed && o.keyMD5 == up.keyMD5 && CheckKey(up.keyMD5, params).None?
            && o.etag == MultipartETag(codec, ps, whole)
  {
    var ps := SortParts(requested);
    ContentsAreJoined(codec, KeyOf(params), files, plains, ps, |ps|);
  }

  lemma StrictlyAscending(ps: seq<CompletePart>)
    requires InOrder(ps) && !Twice(ps)
    ensures forall i, j :: 0 <= i < j < |ps| ==> ps[i].number < ps[j].number
  {
    forall i, j | 0 <= i < j < |ps| ensures ps[i].number < ps[j].number {
      assert ps[i + 1].number != ps[i + 1 - 1].number;
      assert i + 1 < j ==> ps[i + 1].number <= ps[j].number;
      assert ps[i].number <= ps[i + 1].number;
    }
  }

  lemma {:induction false} CheckPartsMeans(ps: seq<CompletePart>, uploaded: map<int, PartInfo>, anySize: bool, i: nat)
    requires i <= |ps|
    ensures CheckParts(ps, uploaded, anySize, i).None? <==> forall j ::
              i <= j < |ps| ==> CheckPart(ps[j], uploaded, j == |ps| - 1, anySize).None?
    decreases |ps| - i
  {
    if i < |ps| {
      CheckPartsMeans(ps, uploaded, anySize, i + 1);
    }
  }

  lemma {:induction false} UploadedMeans(parts: seq<PartInfo>, number: int)
    ensures number in Uploaded(parts) <==> exists i :: 0 <= i < |parts| && parts[i].number == number
    ensures number in Uploaded(parts) ==> Uploaded(parts)[number] in parts && Uploaded(parts)[number].number == number
  {
    if parts != [] {
      var front := parts[..|parts| - 1];
      UploadedMeans(front, number);
      if i :| 0 <= i < |parts| && parts[i].number == number {
        assert i < |front| ==> front[i].number == number;
      }
      if number in Uploaded(front) {
        var i :| 0 <= i < |front| && front[i].number == number;
        assert parts[i].number == number;
      }
    }
  }

  /** The part was uploaded under that ETag, and has 5 MiB unless it may be small. */
  ghost predicate IsAcceptable(p: CompletePart, parts: seq<PartInfo>, mayBeSmall: bool) {
    exists i :: 0 <= i < |parts| && Accepts(p, parts[i], mayBeSmall)
  }

  ghost predicate Accepts(p: CompletePart, u: PartInfo, mayBeSmall: bool) {
    u.number == p.number && SameTag(u.etag, p.etag) && (mayBeSmall || u.size >= 5242880)
  }

  /** The request names some part number twice. */
  ghost predicate NamesTwice(requested: seq<CompletePart>) {
    exists i, j :: 0 <= i < j < |requested| && requested[i].number == requested[j].number
  }

  lemma {:induction false} TwoPlaces(ps: seq<CompletePart>, p: CompletePart) returns (i: nat, j: nat)
    requires multiset(ps)[p] >= 2
    ensures i < j < |ps| && ps[i] == p && ps[j] == p
  {
    FirstApart(ps);
    if ps[0] == p {
      assert p in multiset(ps[1..]);
      var k :| 0 <= k < |ps[1..]| && ps[1..][k] == p;
      i, j := 0, k + 1;
    } else {
      i, j := TwoPlaces(ps[1..], p);
      i, j := i + 1, j + 1;
    }
  }

  lemma PairIsTwice(ps: seq<CompletePart>, i: nat, j: nat)
    requires i < j < |ps| && ps[i] == ps[j]
    ensures multiset(ps)[ps[i]] >= 2
  {
    assert ps == ps[..j] + [ps[j]] + ps[j + 1..];
    assert ps[i] == ps[..j][i];
  }

  lemma SameNamesTwice(ps: seq<CompletePart>, qs: seq<CompletePart>)
    requires multiset(ps) == multiset(qs) && NamesTwice(ps)
    ensures NamesTwice(qs)
  {
    var i, j :| 0 <= i < j < |ps| && ps[i].number == ps[j].number;
    if ps[i] == ps[j] {
      PairIsTwice(ps, i, j);
      var k, m := TwoPlaces(qs, ps[i]);
    } else {
      assert ps[i] in multiset(qs) && ps[j] in multiset(qs);
      var k :| 0 <= k < |qs| && qs[k] == ps[i];
      var m :| 0 <= m < |qs| && qs[m] == ps[j];
      assert k < m || m < k;
    }
  }

  /** In sorted order, neighbours tell. */
  lemma TwiceMeans(requested: seq<CompletePart>)
    ensures Twice(SortParts(requested)) <==> NamesTwice(requested)
  {
    var ps := SortParts(requested);
    SortSorts(requested);
    if NamesTwice(requested) {
      SameNamesTwice(requested, ps);
      if !Twice(ps) {
        StrictlyAscending(ps);
      }
    }
    if Twice(ps) {
      var i :| 0 < i < |ps| && ps[i].number == ps[i - 1].number;
      var k := i - 1;
      assert ps[k].number == ps[i].number;
      SameNamesTwice(ps, requested);
    }
  }

  lemma SortedLength(requested: seq<CompletePart>)
    ensures |SortParts(requested)| == |requested|
  {
    SortSorts(requested);
    assert |multiset(SortParts(requested))| == |multiset(requested)|;
  }

  /** With all files readable, an upload is completed if and only if the key fits
      and the request names at least one part, none twice, each uploaded under
      that ETag and, unless it is the last or sizes are not checked, large enough. */
  lemma CompletesIff(codec: Codec, up: Upload, files: map<int, Key>, requested: seq<CompletePart>,
                     params: Option<Ssec>, iv: Key, anySize: bool)
    requires forall i, j :: 0 <= i < j < |up.parts| ==> up.parts[i].number != up.parts[j].number
    requires forall i ::
               0 <= i < |up.parts| ==>
                       up.parts[i].number in files
                       && Decrypted(codec, KeyOf(params), files[up.parts[i].number]).Some?
    ensures CompleteResult(codec, up, files, requested, params, iv, anySize).Ok? <==>
              var ps := SortParts(requested);
              && CheckKey(up.keyMD5, params).None? && requested != [] && !NamesTwice(requested)
              && forall j :: 0 <= j < |ps| ==> IsAcceptable(ps[j], up.parts, anySize || j == |ps| - 1)
  {
    var ps, uploaded := SortParts(requested), Uploaded(up.parts);
    SortedLength(requested);
    TwiceMeans(requested);
    CheckPartsMeans(ps, uploaded, anySize, 0);
    forall j | 0 <= j < |ps|
      ensures CheckPart(ps[j], uploaded, j == |ps| - 1, anySize).None?
              <==> IsAcceptable(ps[j], up.parts, anySize || j == |ps| - 1)
    {
      PartAcceptable(ps[j], up.parts, j == |ps| - 1, anySize);
    }
    if CheckKey(up.keyMD5, params).None? && CheckParts(ps, uploaded, anySize, 0).None? {
      forall j | 0 <= j < |ps|
          ensures ps[j].number in files && Decrypted(codec, KeyOf(params), files[ps[j].number]).Some? {
        var i :| 0 <= i < |up.parts| && up.parts[i].number == ps[j].number;
      }
      AllReadable(codec, KeyOf(params), files, ps, |ps|);
    }
  }

  /** The part was uploaded under that ETag; all that it may lack is size. */
  ghost predicate IsUploaded(p: CompletePart, parts: seq<PartInfo>) {
    IsAcceptable(p, parts, true)
  }

  /** Which fault is answered: first the customer key, then a part named twice, then no
      part at all, then the first part in ascending number that was not uploaded under
      its ETag or is too small. */
  lemma CompleteFaults(codec: Codec, up: Upload, files: map<int, Key>, requested: seq<CompletePart>,
                       params: Option<Ssec>, iv: Key, anySize: bool, j: nat)
    requires forall i, k :: 0 <= i < k < |up.parts| ==> up.parts[i].number != up.parts[k].number
    ensures var (r, ps) := (CompleteResult(codec, up, files, requested, params, iv, anySize), SortParts(requested));
            && (CheckKey(up.keyMD5, params).Some? ==> r == Err(CheckKey(up.keyMD5, params).value))
            && (CheckKey(up.keyMD5, params).None? && NamesTwice(requested) ==> r == Err(InvalidPartOrder))
            && (CheckKey(up.keyMD5, params).None? && requested == [] ==> r == Err(InvalidPart))
            && (CheckKey(up.keyMD5, params).None? && !NamesTwice(requested) && j < |ps|
                && (forall i :: 0 <= i < j ==> IsAcceptable(ps[i], up.parts, anySize || i == |ps| - 1))
                && !IsAcceptable(ps[j], up.parts, anySize || j == |ps| - 1) ==>
                  r == Err(if IsUploaded(ps[j], up.parts) then EntityTooSmall else InvalidPart))
  {
    var ps, uploaded := SortParts(requested), Uploaded(up.parts);
    SortedLength(requested);
    TwiceMeans(requested);
    if j < |ps| && !IsAcceptable(ps[j], up.parts, anySize || j == |ps| - 1)
       && forall i :: 0 <= i < j ==> IsAcceptable(ps[i], up.parts, anySize || i == |ps| - 1) {
      forall i | 0 <= i < j ensures CheckPart(ps[i], uploaded, i == |ps| - 1, anySize).None? {
        PartAcceptable(ps[i], up.parts, i == |ps| - 1, anySize);
      }
      PartAcceptable(ps[j], up.parts, j == |ps| - 1, anySize);
      PartFault(ps[j], up.parts, j == |ps| - 1, anySize);
      FirstFault(ps, uploaded, anySize, 0, j);
    }
  }

  lemma PartFault(p: CompletePart, parts: seq<PartInfo>, last: bool, anySize: bool)
    requires forall i, j :: 0 <= i < j < |parts| ==> parts[i].number != parts[j].number
    requires !IsAcceptable(p, parts, anySize || last)
    ensures CheckPart(p, Uploaded(parts), last, anySize)
            == Some(if IsUploaded(p, parts) then EntityTooSmall else InvalidPart)
  {
    PartAcceptable(p, parts, last, anySize);
    PartAcceptable(p, parts, true, true);
  }

  lemma {:induction false} FirstFault(ps: seq<CompletePart>, uploaded: map<int, PartInfo>, anySize: bool, i: nat,
                                      j: nat)
    requires i <= j < |ps| && CheckPart(ps[j], uploaded, j == |ps| - 1, anySize).Some?
    requires forall k :: i <= k < j ==> CheckPart(ps[k], uploaded, k == |ps| - 1, anySize).None?
    ensures CheckParts(ps, uploaded, anySize, i) == CheckPart(ps[j], uploaded, j == |ps| - 1, anySize)
    decreases j - i
  {
    if i < j {
      FirstFault(ps, uploaded, anySize, i + 1, j);
    }
  }

  lemma PartAcceptable(p: CompletePart, parts: seq<PartInfo>, last: bool, anySize: bool)
    requires forall i, j :: 0 <= i < j < |parts| ==> parts[i].number != parts[j].number
    ensures CheckPart(p, Uploaded(parts), last, anySize).None? <==> IsAcceptable(p, parts, anySize || last)
  {
    UploadedMeans(parts, p.number);
    if p.number in Uploaded(parts) {
      var u := Uploaded(parts)[p.number];
      var k :| 0 <= k < |parts| && parts[k] == u;
      SameTagIsTrimmed(u.etag, p.etag);
      assert Accepts(p, parts[k], anySize || last) <==> CheckPart(p, Uploaded(parts), last, anySize).None?;
      forall i | 0 <= i < |parts| && Accepts(p, parts[i], anySize || last) ensures i == k {
      }
    }
  }

  /** The digests that the parts' ETags spell: quotes off, 32 hexadecimal digits. */
  ghost predicate Spells(codec: Codec, etag: Key, digest: Option<Key>) {
    exists core :: IsCore(etag, core) && SpellsBare(codec, core, digest)
  }

  predicate SpellsBare(codec: Codec, core: Key, digest: Option<Key>) {
    if codec.unhex(core).Some? && |codec.unhex(core).value| == 16 then digest == codec.unhex(core) else digest == None
  }

  /** All digests there are, one after the other. */
  function Concatenated(digests: seq<Option<Key>>): Key {
    if digests == [] then []
    else Concatenated(digests[..|digests| - 1]) + match digests[|digests| - 1] case Some(d) => d case None => []
  }

  lemma {:induction false} DigestsAreConcatenated(codec: Codec, ps: seq<CompletePart>, digests: seq<Option<Key>>,
                                                  n: nat)
    requires n <= |ps| == |digests| && forall i :: 0 <= i < |ps| ==> Spells(codec, ps[i].etag, digests[i])
    ensures PartDigests(codec, ps, n) == Concatenated(digests[..n])
  {
    if n > 0 {
      DigestsAreConcatenated(codec, ps, digests, n - 1);
      assert Spells(codec, ps[n - 1].etag, digests[n - 1]);
      var core :| IsCore(ps[n - 1].etag, core) && SpellsBare(codec, core, digests[n - 1]);
      TrimIsCore(ps[n - 1].etag, core);
      assert digests[..n][..n - 1] == digests[..n - 1];
    }
  }

  /** A completed object's ETag: the digest of the digests that its parts' ETags spell,
      in ascending part number, with the number of parts behind it; only if none of
      them spells one, the digest of the data. */
  lemma CompletedETag(codec: Codec, up: Upload, files: map<int, Key>, plains: map<int, Key>,
                      requested: seq<CompletePart>, params: Option<Ssec>, iv: Key, anySize: bool,
                      digests: seq<Option<Key>>)
    requires CompleteResult(codec, up, files, requested, params, iv, anySize).Ok?
    requires forall m :: m in plains ==> m in files && IsPartFile(codec, KeyOf(params), files[m], plains[m])
    requires forall i :: 0 <= i < |SortParts(requested)| ==> SortParts(requested)[i].number in plains
    requires |SortParts(requested)| == |digests|
    requires forall i :: 0 <= i < |digests| ==> Spells(codec, SortParts(requested)[i].etag, digests[i])
    ensures var etag := CompleteResult(codec, up, files, requested, params, iv, anySize).value.etag;
            && ((exists i :: 0 <= i < |digests| && digests[i].Some?) ==>
                  etag == OfParts(codec.hex(codec.md5(Concatenated(digests))), |requested|))
            && ((forall i :: 0 <= i < |digests| ==> digests[i].None?) ==>
                  etag == Whole(codec.hex(codec.md5(Joined(plains, SortParts(requested), |SortParts(requested)|)))))
  {
    var ps := SortParts(requested);
    SortSorts(requested);
    assert |multiset(ps)| == |multiset(requested)|;
    CompletedContents(codec, up, files, plains, requested, params, iv, anySize);
    ETagOfParts(codec, ps, digests, Joined(plains, ps, |ps|));
  }

  lemma ETagOfParts(codec: Codec, ps: seq<CompletePart>, digests: seq<Option<Key>>, data: Key)
    requires |ps| == |digests| && forall i :: 0 <= i < |digests| ==> Spells(codec, ps[i].etag, digests[i])
    ensures (exists i :: 0 <= i < |digests| && digests[i].Some?) ==>
              MultipartETag(codec, ps, data) == OfParts(codec.hex(codec.md5(Concatenated(digests))), |ps|)
    ensures (forall i :: 0 <= i < |digests| ==> digests[i].None?) ==>
              MultipartETag(codec, ps, data) == Whole(codec.hex(codec.md5(data)))
  {
    DigestsAreConcatenated(codec, ps, digests, |ps|);
    assert digests[..|ps|] == digests;
    forall i | 0 <= i < |digests| && digests[i].Some? ensures |digests[i].value| == 16 {
      assert Spells(codec, ps[i].etag, digests[i]);
    }
    SomethingConcatenated(digests);
  }

  lemma {:induction false} SomethingConcatenated(digests: seq<Option<Key>>)
    requires forall i :: 0 <= i < |digests| && digests[i].Some? ==> |digests[i].value| == 16
    ensures |Concatenated(digests)| > 0 <==> exists i :: 0 <= i < |digests| && digests[i].Some?
  {
    if digests != [] {
      var front := digests[..|digests| - 1];
      SomethingConcatenated(front);
      if i :| 0 <= i < |digests| && digests[i].Some? {
        assert i < |front| ==> front[i].Some?;
      }
      if i :| 0 <= i < |front| && front[i].Some? {
        assert digests[i].Some?;
      }
    }
  }

  lemma {:induction false} AllReadable(codec: Codec, key: Option<Key>, files: map<int, Key>, ps: seq<CompletePart>,
                                       n: nat)
    requires n <= |ps| && forall j ::
               0 <= j < |ps| ==> ps[j].number in files && Decrypted(codec, key, files[ps[j].number]).Some?
    ensures Contents(codec, key, files, ps, n).Some?
  {
    if n > 0 {
      AllReadable(codec, key, files, ps, n - 1);
    }
  }
}
