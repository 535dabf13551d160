/** `ListObjectVersions`: every version of every object, keys ascending and newest
    first within a key, gathered one key at a time and rolled up at a delimiter. */
module VersionListing {
  import opened Keys
  import opened Records
  import ObjectListing

  type View = ObjectListing.View

  // ----- the records of one key -----

  /** `objectKeyOf`: the object that a pointer or version record belongs to. */
  function KeyPart(bucket: Key, raw: Key): Key
    requires BucketPrefix(bucket) <= raw
  {
    FirstPart(raw[|bucket| + 1..])
  }

  predicate InGroup(bucket: Key, key: Key, e: Entry) {
    BucketPrefix(bucket) <= e.raw && KeyPart(bucket, e.raw) == key
  }

  function GroupEnd(s: seq<Entry>, bucket: Key, key: Key, pos: nat): (end: nat)
    ensures pos <= end && (pos <= |s| ==> end <= |s|)
    ensures pos < |s| && InGroup(bucket, key, s[pos]) ==> pos < end
    decreases |s| - pos
  {
    if pos < |s| && InGroup(bucket, key, s[pos]) then GroupEnd(s, bucket, key, pos + 1) else pos
  }

  predicate HasVersion(infos: seq<ObjectInfo>, versionId: Key) {
    exists i :: 0 <= i < |infos| && infos[i].versionId == versionId
  }

  /** The records from `from` to `end`, the first of each version id. */
  function Gathered(s: seq<Entry>, from: nat, end: nat): seq<ObjectInfo>
    requires from <= end <= |s|
  {
    if from == end then []
    else
      var front := Gathered(s, from, end - 1);
      if HasVersion(front, s[end - 1].info.versionId) then front else front + [s[end - 1].info]
  }

  /** Behind everything that is as new or newer. */
  function InsertNewest(x: ObjectInfo, xs: seq<ObjectInfo>): seq<ObjectInfo> {
    if xs == [] || xs[0].lastModified < x.lastModified then [x] + xs else [xs[0]] + InsertNewest(x, xs[1..])
  }

  /** The stable sort by descending time. */
  function NewestFirst(xs: seq<ObjectInfo>): seq<ObjectInfo> {
    if xs == [] then [] else InsertNewest(xs[|xs| - 1], NewestFirst(xs[..|xs| - 1]))
  }

  /** Whether the scan goes on at `pos`. */
  predicate Continues(s: seq<Entry>, v: View, pos: nat) {
    pos < |s| && BucketPrefix(v.bucket) <= s[pos].raw && v.prefix <= KeyPart(v.bucket, s[pos].raw)
  }

  /** All versions from `pos` on: key after key, each newest first. */
  function Flat(s: seq<Entry>, v: View, pos: nat): seq<ObjectInfo>
    decreases |s| - pos
  {
    if !Continues(s, v, pos) then []
    else
      var end := GroupEnd(s, v.bucket, KeyPart(v.bucket, s[pos].raw), pos);
      NewestFirst(Gathered(s, pos, end)) + Flat(s, v, end)
  }

  // ----- the lines of a listing -----

  /** A version or delete marker, or a common prefix with its first entry. */
  datatype Line = Version(info: ObjectInfo) | Prefix(path: Key, info: ObjectInfo)

  function PathOf(v: View, x: ObjectInfo): Option<Key> {
    if !(v.prefix <= x.key) then None
    else
      var r := ObjectListing.RollUp(v, x.key);
      if r.0 then Some(r.1) else None
  }

  /** Roll the versions up: every common prefix once, where it first occurs. */
  function Lines(items: seq<ObjectInfo>, v: View, seen: set<Key>): seq<Line> {
    if items == [] then []
    else
      match PathOf(v, items[0])
      case None => [Version(items[0])] + Lines(items[1..], v, seen)
      case Some(d) =>
        if d in seen then Lines(items[1..], v, seen)
        else [Prefix(d, items[0])] + Lines(items[1..], v, seen + {d})
  }

  datatype Request = Request(view: View, maxKeys: int, keyMarker: Key, versionIdMarker: Key)
  {
    function Limit(): (n: nat)
      ensures n > 0
    {
      if maxKeys <= 0 then 1000 else maxKeys
    }

    function SeekKey(): Key {
      BucketPrefix(view.bucket) + if keyMarker != [] then keyMarker else view.prefix
    }

    function Resume(x: ObjectInfo): Request {
      this.(keyMarker := x.key, versionIdMarker := x.versionId)
    }
  }

  /** The entry that ended the page before. */
  predicate IsMarker(req: Request, x: ObjectInfo) {
    x.key == req.keyMarker && (req.versionIdMarker == [] || x.versionId == req.versionIdMarker)
  }

  /** What follows the first entry that the markers match. */
  function Behind(items: seq<ObjectInfo>, req: Request): seq<ObjectInfo> {
    if items == [] then [] else if IsMarker(req, items[0]) then items[1..] else Behind(items[1..], req)
  }

  function Start(s: seq<Entry>, req: Request): nat {
    Seek(s, req.SeekKey())
  }

  function Visible(s: seq<Entry>, req: Request): seq<Line> {
    var items := Flat(s, req.view, Start(s, req));
    Lines(if req.keyMarker == [] then items else Behind(items, req), req.view, {})
  }

  function VersionsIn(lines: seq<Line>, n: nat, markers: bool): seq<ObjectInfo>
    requires n <= |lines|
  {
    if n == 0 then []
    else VersionsIn(lines, n - 1, markers) +
         if lines[n - 1].Version? && lines[n - 1].info.isDeleteMarker == markers then [lines[n - 1].info] else []
  }

  function PathsIn(lines: seq<Line>, n: nat): seq<Key>
    requires n <= |lines|
  {
    if n == 0 then [] else PathsIn(lines, n - 1) + if lines[n - 1].Prefix? then [lines[n - 1].path] else []
  }

  datatype Page = Page(
    versions: seq<ObjectInfo>,
    deleteMarkers: seq<ObjectInfo>,
    commonPrefixes: seq<Key>,
    isTruncated: bool,
    next: Option<ObjectInfo>)

  function PageSize(s: seq<Entry>, req: Request): (n: nat)
    ensures n <= |Visible(s, req)|
  {
    if |Visible(s, req)| <= req.Limit() then |Visible(s, req)| else req.Limit()
  }

  predicate Truncated(s: seq<Entry>, req: Request) {
    |Visible(s, req)| > req.Limit()
  }

  /** The first MaxKeys lines; a truncated page names the entry of its last line. */
  function PageOf(s: seq<Entry>, req: Request): Page {
    var (lines, n) := (Visible(s, req), PageSize(s, req));
    Page(VersionsIn(lines, n, false), VersionsIn(lines, n, true), PathsIn(lines, n), Truncated(s, req),
         if Truncated(s, req) then Some(lines[n - 1].info) else None)
  }

  // ----- the scan -----

  /** What the scan has put out, and whether it has passed the marker. */
  datatype Output = Output(
    started: bool,
    seen: set<Key>,
    versions: seq<ObjectInfo>,
    deleteMarkers: seq<ObjectInfo>,
    commonPrefixes: seq<Key>,
    count: nat,
    last: Option<ObjectInfo>,
    full: bool)

  /** `out` holds the first `count` lines of `all`; the others come from `rest`. */
  ghost predicate Scanned(all: seq<Line>, req: Request, out: Output, rest: seq<ObjectInfo>) {
    && out.count <= |all| && out.count <= req.Limit()
    && out.versions == VersionsIn(all, out.count, false) && out.deleteMarkers == VersionsIn(all, out.count, true)
    && out.commonPrefixes == PathsIn(all, out.count)
    && (out.last == if out.count == 0 then None else Some(all[out.count - 1].info))
    && (if out.full then out.count == req.Limit() < |all|
        else if out.started then all[out.count..] == Lines(rest, req.view, out.seen)
        else out.count == 0 && out.seen == {} && all == Lines(Behind(rest, req), req.view, {}))
  }

  function EmitVersion(out: Output, x: ObjectInfo): Output {
    out.(versions := if x.isDeleteMarker then out.versions else out.versions + [x],
         deleteMarkers := if x.isDeleteMarker then out.deleteMarkers + [x] else out.deleteMarkers,
         count := out.count + 1, last := Some(x))
  }

  function EmitPrefix(out: Output, d: Key, x: ObjectInfo): Output {
    out.(seen := out.seen + {d}, commonPrefixes := out.commonPrefixes + [d], count := out.count + 1, last := Some(x))
  }

  lemma NextLine(all: seq<Line>, n: nat, line: Line, more: seq<Line>)
    requires n <= |all| && all[n..] == [line] + more
    ensures n < |all| && all[n] == line && all[n + 1..] == more
  {
    assert all[n] == all[n..][0];
    assert all[n + 1..] == all[n..][1..];
  }

  /** Every branch of the inner loop body is right. */
  lemma ScanMoves(all: seq<Line>, req: Request, out: Output, x: ObjectInfo, rest: seq<ObjectInfo>)
    requires Scanned(all, req, out, [x] + rest) && !out.full
    ensures !out.started && IsMarker(req, x) ==> Scanned(all, req, out.(started := true), rest)
    ensures !out.started && !IsMarker(req, x) ==> Scanned(all, req, out, rest)
    ensures out.started && PathOf(req.view, x).Some? && PathOf(req.view, x).value in out.seen
            ==> Scanned(all, req, out, rest)
    ensures out.started && (PathOf(req.view, x).None? || PathOf(req.view, x).value !in out.seen) ==> out.count < |all|
    ensures out.started && PathOf(req.view, x).None? && out.count < req.Limit()
            ==> Scanned(all, req, EmitVersion(out, x), rest)
    ensures out.started && PathOf(req.view, x).Some? && PathOf(req.view, x).value !in out.seen
            && out.count < req.Limit() ==>
              Scanned(all, req, EmitPrefix(out, PathOf(req.view, x).value, x), rest)
  {
    assert ([x] + rest)[1..] == rest;
    if out.started {
      match PathOf(req.view, x)
      case None => NextLine(all, out.count, Version(x), Lines(rest, req.view, out.seen));
      case Some(d) =>
        if d !in out.seen {
          NextLine(all, out.count, Prefix(d, x), Lines(rest, req.view, out.seen + {d}));
        }
    } else if IsMarker(req, x) {
      assert all[0..] == all;
    }
  }

  /** The inner loop over the versions of one key. */
  method EmitKey(keyVersions: seq<ObjectInfo>, req: Request,
                 before: Output, ghost all: seq<Line>, ghost behind: seq<ObjectInfo>) returns (out: Output)
    requires !before.full && Scanned(all, req, before, keyVersions + behind)
    ensures Scanned(all, req, out, behind)
  {
    out := before;
    assert keyVersions[0..] == keyVersions;
    for i := 0 to |keyVersions|
      invariant !out.full && Scanned(all, req, out, keyVersions[i..] + behind)
    {
      var info := keyVersions[i];
      assert keyVersions[i..] + behind == [info] + (keyVersions[i + 1..] + behind);
      ScanMoves(all, req, out, info, keyVersions[i + 1..] + behind);
      if !out.started {
        if IsMarker(req, info) {
          out := out.(started := true);
        }
      } else {
        var path := PathOf(req.view, info);
        if path.Some? && path.value in out.seen {
          continue;
        }
        if out.count >= req.Limit() {
          out := out.(full := true);
          return;
        }
        out := if path.Some? then EmitPrefix(out, path.value, info) else EmitVersion(out, info);
      }
    }
    assert keyVersions[|keyVersions|..] + behind == behind;
  }

  /** The loop that gathers the versions of the key at the cursor. */
  method GatherVersions(s: seq<Entry>, bucket: Key, key: Key, pos: nat)
      returns (keyVersions: seq<ObjectInfo>, next: nat)
    requires pos <= |s|
    ensures next == GroupEnd(s, bucket, key, pos) && keyVersions == Gathered(s, pos, next)
  {
    keyVersions, next := [], pos;
    while next < |s| && InGroup(bucket, key, s[next])
      invariant pos <= next <= |s| && GroupEnd(s, bucket, key, next) == GroupEnd(s, bucket, key, pos)
      invariant keyVersions == Gathered(s, pos, next)
    {
      var info := s[next].info;
      if !HasVersion(keyVersions, info.versionId) {
        keyVersions := keyVersions + [info];
      }
      next := next + 1;
    }
  }

  method ListObjectVersions(s: seq<Entry>, req: Request) returns (page: Page)
    ensures page == PageOf(s, req)
  {
    var pos := Seek(s, req.SeekKey());
    var out := Output(req.keyMarker == [], {}, [], [], [], 0, None, false);
    ghost var all := Visible(s, req);
    assert all[0..] == all;
    while !out.full && Continues(s, req.view, pos)
      invariant Scanned(all, req, out, if out.full then [] else Flat(s, req.view, pos))
      decreases |s| - pos, !out.full
    {
      var keyVersions, next := GatherVersions(s, req.view.bucket, KeyPart(req.view.bucket, s[pos].raw), pos);
      out := EmitKey(NewestFirst(keyVersions), req, out, all, Flat(s, req.view, next));
      pos := next;
    }
    page := Page(out.versions, out.deleteMarkers, out.commonPrefixes, out.full, if out.full then out.last else None);
  }
}
