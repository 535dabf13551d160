/** What a listing of versions shows of the version stacks: after any run of puts
    and deletes each key appears with its stack, newest first. */
module StackListing {
  import opened Keys
  import opened Sequences
  import opened Records
  import opened VersionStack
  import Versioning
  import VersionListing
  import opened VersionPaging

  type View = VersionListing.View

  /** A version as its record shows it. */
  function Recorded(st: Stack, j: nat): ObjectInfo
    requires j < |st|
  {
    st[j].(isLatest := j == |st| - 1)
  }

  /** The stack as a listing shows it. */
  function NewestOf(st: Stack): seq<ObjectInfo> {
    seq(|st|, i requires 0 <= i < |st| => Recorded(st, |st| - 1 - i))
  }

  /** Every record of the bucket is the pointer or the history record of its key. */
  lemma RawOfRecord(bucket: Key, raw: Key)
    requires BucketPrefix(bucket) <= raw
    ensures var key := VersionListing.KeyPart(bucket, raw);
            0 !in key && (raw == PointerKey(bucket, key) || exists v :: raw == VersionKey(bucket, key, v))
  {
    var rest := raw[|bucket| + 1..];
    var key := VersionListing.KeyPart(bucket, raw);
    FirstPartMeans(rest);
    assert raw == BucketPrefix(bucket) + rest;
    if |rest| > |key| {
      assert rest == key + [0] + rest[|key| + 1..];
      assert raw == VersionKey(bucket, key, rest[|key| + 1..]);
    } else {
      assert rest == key;
    }
  }

  lemma KeyPartOf(bucket: Key, key: Key, v: Key)
    requires 0 !in key
    ensures VersionListing.KeyPart(bucket, PointerKey(bucket, key)) == key
    ensures BucketPrefix(bucket) <= VersionKey(bucket, key, v)
            && VersionListing.KeyPart(bucket, VersionKey(bucket, key, v)) == key
  {
    FirstPartOfKey(key);
    assert PointerKey(bucket, key)[|bucket| + 1..] == key;
    FirstPartStops(key, v);
    assert VersionKey(bucket, key, v)[|bucket| + 1..] == key + [0] + v;
  }

  lemma {:induction false} FirstPartStops(key: Key, v: Key)
    requires 0 !in key
    ensures FirstPart(key + [0] + v) == key
  {
    if key != [] {
      assert (key + [0] + v)[1..] == key[1..] + [0] + v;
      FirstPartStops(key[1..], v);
    }
  }

  /** Each record shows one version of its key's stack. */
  lemma RecordShows(s: seq<Entry>, bucket: Key, h: Histories, i: nat) returns (j: nat)
    requires Refines(s, bucket, h) && i < |s| && InBucket(bucket, s[i])
    ensures var st := StackOf(h, VersionListing.KeyPart(bucket, s[i].raw));
            j < |st| && s[i].info == Recorded(st, j)
  {
    var raw := s[i].raw;
    var key := VersionListing.KeyPart(bucket, raw);
    var st := StackOf(h, key);
    RawOfRecord(bucket, raw);
    GetMeans(s, raw);
    assert Represents(s, bucket, key, st);
    if raw == PointerKey(bucket, key) {
      j := |st| - 1;
    } else {
      var v :| raw == VersionKey(bucket, key, v);
      j := Find(st, v);
    }
  }

  /** Records carry the key they are stored under. */
  lemma RecordsAreConsistent(s: seq<Entry>, bucket: Key, h: Histories)
    requires Refines(s, bucket, h)
    ensures Consistent(s, bucket)
  {
    forall i | 0 <= i < |s| && InBucket(bucket, s[i])
        ensures s[i].info.key == VersionListing.KeyPart(bucket, s[i].raw) {
      var key := VersionListing.KeyPart(bucket, s[i].raw);
      RawOfRecord(bucket, s[i].raw);
      var j := RecordShows(s, bucket, h, i);
      assert Represents(s, bucket, key, StackOf(h, key));
    }
  }

  /** Each version of a stack has a record, at or behind the key's pointer. */
  lemma VersionHasRecord(s: seq<Entry>, bucket: Key, key: Key, st: Stack, j: nat) returns (i: nat)
    requires Sorted(s) && Represents(s, bucket, key, st) && j < |st| && 0 !in key
    ensures Seek(s, PointerKey(bucket, key)) <= i < |s| && InBucket(bucket, s[i])
            && VersionListing.KeyPart(bucket, s[i].raw) == key
    ensures s[i].info == Recorded(st, j)
  {
    var raw := if j == |st| - 1 then PointerKey(bucket, key) else VersionKey(bucket, key, st[j].versionId);
    RecordOfMember(st, key, j);
    KeyPartOf(bucket, key, st[j].versionId);
    GetMeans(s, raw);
    assert Get(s, raw) == Some(Recorded(st, j));
    i :| 0 <= i < |s| && s[i] == Entry(raw, Recorded(st, j));
    SeekSplits(s, PointerKey(bucket, key));
    PrefixNotAbove(PointerKey(bucket, key), raw);
  }

  predicate StrictlyDescending(xs: seq<ObjectInfo>) {
    forall i, j :: 0 <= i < j < |xs| ==> xs[i].lastModified > xs[j].lastModified
  }

  lemma {:induction false} DescendingUnique(a: seq<ObjectInfo>, b: seq<ObjectInfo>)
    requires StrictlyDescending(a) && StrictlyDescending(b) && forall x :: x in a <==> x in b
    ensures a == b
  {
    if a == [] {
      Inhabited(b);
    } else {
      assert a[0] in b;
      assert b[0] in a;
      var i :| 0 <= i < |b| && b[i] == a[0];
      var j :| 0 <= j < |a| && a[j] == b[0];
      assert a[0] == b[0];
      TailMembers(a, b);
      TailMembers(b, a);
      DescendingUnique(a[1..], b[1..]);
      assert a == [a[0]] + a[1..] && b == [b[0]] + b[1..];
    }
  }

  lemma TailMembers(a: seq<ObjectInfo>, b: seq<ObjectInfo>)
    requires StrictlyDescending(a) && a != [] && b != [] && a[0] == b[0] && forall x :: x in a ==> x in b
    ensures forall x :: x in a[1..] ==> x in b[1..]
  {
    forall x | x in a[1..] ensures x in b[1..] {
      var i :| 0 < i < |a| && a[i] == x;
      assert a[i] in b;
      var j :| 0 <= j < |b| && b[j] == x;
      assert b[1..][j - 1] == x;
    }
  }

  lemma NewestOfMeans(st: Stack, key: Key)
    requires IsStack(st, key)
    ensures StrictlyDescending(NewestOf(st))
    ensures forall j :: 0 <= j < |st| ==> Recorded(st, j) in NewestOf(st)
    ensures forall x :: x in NewestOf(st) ==> exists j :: 0 <= j < |st| && x == Recorded(st, j)
  {
    forall j | 0 <= j < |st| ensures Recorded(st, j) in NewestOf(st) {
      assert NewestOf(st)[|st| - 1 - j] == Recorded(st, j);
    }
    forall x | x in NewestOf(st) ensures exists j :: 0 <= j < |st| && x == Recorded(st, j) {
      var i :| 0 <= i < |st| && NewestOf(st)[i] == x;
      assert x == Recorded(st, |st| - 1 - i);
    }
  }

  lemma GroupMembers(s: seq<Entry>, v: View, h: Histories, key: Key, x: ObjectInfo)
    requires Refines(s, v.bucket, h) && 0 !in key
    requires VersionListing.Continues(s, v, Seek(s, PointerKey(v.bucket, key)))
             && VersionListing.KeyPart(v.bucket, s[Seek(s, PointerKey(v.bucket, key))].raw) == key
    ensures x in GroupAt(s, v, Seek(s, PointerKey(v.bucket, key))) ==> exists j ::
              0 <= j < |StackOf(h, key)| && x == Recorded(StackOf(h, key), j)
  {
    var pos, st := Seek(s, PointerKey(v.bucket, key)), StackOf(h, key);
    var end, g := EndAt(s, v, pos), GroupAt(s, v, pos);
    GatheredMeans(s, pos, end);
    SortedMembers(VersionListing.Gathered(s, pos, end));
    GroupIsBlock(s, v.bucket, key, pos);
    if x in g {
      var i :| pos <= i < end && s[i].info == x;
      assert VersionListing.InGroup(v.bucket, key, s[i]);
      var j := RecordShows(s, v.bucket, h, i);
    }
  }

  lemma GroupHasAll(s: seq<Entry>, v: View, h: Histories, key: Key, j: nat)
    requires Refines(s, v.bucket, h) && 0 !in key && j < |StackOf(h, key)|
    requires VersionListing.Continues(s, v, Seek(s, PointerKey(v.bucket, key)))
             && VersionListing.KeyPart(v.bucket, s[Seek(s, PointerKey(v.bucket, key))].raw) == key
    ensures Recorded(StackOf(h, key), j) in GroupAt(s, v, Seek(s, PointerKey(v.bucket, key)))
  {
    var pos, st := Seek(s, PointerKey(v.bucket, key)), StackOf(h, key);
    var g := GroupAt(s, v, pos);
    assert Represents(s, v.bucket, key, st);
    var i := VersionHasRecord(s, v.bucket, key, st, j);
    RecordsAreConsistent(s, v.bucket, h);
    GroupMeans(s, v, pos);
    LessIrreflexive(key);
    if i >= EndAt(s, v, pos) { LaterKeys(s, v, pos, i); }
    var m :| 0 <= m < |g| && g[m].versionId == s[i].info.versionId;
    assert g[m] in g;
    GroupMembers(s, v, h, key, g[m]);
    var n :| 0 <= n < |st| && g[m] == Recorded(st, n);
    assert st[n].versionId == st[j].versionId;
    assert n == j;
  }

  /** The versions gathered for a key are its stack, newest first. */
  lemma GroupIsStack(s: seq<Entry>, v: View, h: Histories, key: Key)
    requires Refines(s, v.bucket, h) && 0 !in key
    requires VersionListing.Continues(s, v, Seek(s, PointerKey(v.bucket, key)))
             && VersionListing.KeyPart(v.bucket, s[Seek(s, PointerKey(v.bucket, key))].raw) == key
    ensures GroupAt(s, v, Seek(s, PointerKey(v.bucket, key))) == NewestOf(StackOf(h, key))
  {
    var pos, st := Seek(s, PointerKey(v.bucket, key)), StackOf(h, key);
    var g := GroupAt(s, v, pos);
    assert Represents(s, v.bucket, key, st);
    NewestOfMeans(st, key);
    RecordsAreConsistent(s, v.bucket, h);
    GroupMeans(s, v, pos);
    forall x ensures x in g <==> x in NewestOf(st) {
      GroupMembers(s, v, h, key, x);
      if x in NewestOf(st) {
        var j :| 0 <= j < |st| && x == Recorded(st, j);
        GroupHasAll(s, v, h, key, j);
      }
    }
    forall m, n | 0 <= m < n < |g| ensures g[m].lastModified > g[n].lastModified {
      assert g[m] in g && g[n] in g;
      TimesDiffer(st, key, g[m], g[n]);
    }
    DescendingUnique(g, NewestOf(st));
  }

  lemma TimesDiffer(st: Stack, key: Key, x: ObjectInfo, y: ObjectInfo)
    requires IsStack(st, key) && x in NewestOf(st) && y in NewestOf(st) && x.versionId != y.versionId
    ensures x.lastModified != y.lastModified
  {
    NewestOfMeans(st, key);
    var i :| 0 <= i < |st| && x == Recorded(st, i);
    var j :| 0 <= j < |st| && y == Recorded(st, j);
    assert i < j || j < i;
  }

  // ----- the listing of a whole bucket -----

  /** A version that has no id is the whole stack of its key. */
  lemma RecordedIsAlone(st: Stack, key: Key, x: ObjectInfo, y: ObjectInfo)
    requires IsStack(st, key) && x in NewestOf(st) && y in NewestOf(st) && x.versionId == []
    ensures x == y
  {
    NewestOfMeans(st, key);
    var i :| 0 <= i < |st| && x == Recorded(st, i);
    var j :| 0 <= j < |st| && y == Recorded(st, j);
  }

  ghost predicate ShowsStack(h: Histories, x: ObjectInfo) {
    0 !in x.key && StackOf(h, x.key) != [] && x in NewestOf(StackOf(h, x.key))
  }

  /** Whatever a listing shows is a version of the stack of its key. */
  lemma {:induction false} ListedIsRecorded(s: seq<Entry>, v: View, h: Histories, pos: nat, x: ObjectInfo)
    requires Refines(s, v.bucket, h) && Consistent(s, v.bucket) && x in VersionListing.Flat(s, v, pos)
    ensures ShowsStack(h, x)
    decreases |s| - pos
  {
    if x in GroupAt(s, v, pos) {
      GatheredIsRecorded(s, v, h, pos, x);
    } else {
      ListedIsRecorded(s, v, h, EndAt(s, v, pos), x);
    }
  }

  lemma GatheredIsRecorded(s: seq<Entry>, v: View, h: Histories, pos: nat, x: ObjectInfo)
    requires Refines(s, v.bucket, h) && Consistent(s, v.bucket) && VersionListing.Continues(s, v, pos)
             && x in GroupAt(s, v, pos)
    ensures ShowsStack(h, x)
  {
    var end, key := EndAt(s, v, pos), VersionListing.KeyPart(v.bucket, s[pos].raw);
    GatheredMeans(s, pos, end);
    SortedMembers(VersionListing.Gathered(s, pos, end));
    GroupIsBlock(s, v.bucket, key, pos);
    var i :| pos <= i < end && s[i].info == x;
    assert VersionListing.InGroup(v.bucket, key, s[i]) && InBucket(v.bucket, s[i]);
    RawOfRecord(v.bucket, s[i].raw);
    var j := RecordShows(s, v.bucket, h, i);
    assert Represents(s, v.bucket, x.key, StackOf(h, x.key));
    NewestOfMeans(StackOf(h, x.key), x.key);
  }

  /** So the records of any history can be listed page by page. */
  lemma HistoriesArePageable(s: seq<Entry>, v: View, h: Histories)
    requires Refines(s, v.bucket, h) && 0 !in v.prefix && [] !in h
    ensures Named(s, v)
  {
    RecordsAreConsistent(s, v.bucket, h);
    var pos, all := Seek(s, BucketPrefix(v.bucket) + v.prefix), AllItems(s, v);
    FlatIsListed(s, v, pos);
    forall i | 0 < i < |all| && all[i].versionId == [] ensures all[i - 1].key != all[i].key {
      ListedIsRecorded(s, v, h, pos, all[i - 1]);
      ListedIsRecorded(s, v, h, pos, all[i]);
      LessIrreflexive(all[i].key);
      assert Before(all[i - 1], all[i]);
      if all[i - 1].key == all[i].key {
        assert Represents(s, v.bucket, all[i].key, StackOf(h, all[i].key));
        RecordedIsAlone(StackOf(h, all[i].key), all[i].key, all[i], all[i - 1]);
      }
    }
    forall x | x in all ensures x.key != [] {
      ListedIsRecorded(s, v, h, pos, x);
    }
  }

  predicate StandsAt(all: seq<ObjectInfo>, f: nat, block: seq<ObjectInfo>) {
    f + |block| <= |all| && all[f..f + |block|] == block
  }

  /** In the whole listing each key with the prefix stands with its stack, newest first. */
  lemma KeyStandsWithItsStack(s: seq<Entry>, v: View, h: Histories, key: Key) returns (f: nat)
    requires Refines(s, v.bucket, h) && 0 !in v.prefix && [] !in h
    requires 0 !in key && v.prefix <= key && StackOf(h, key) != []
    ensures StandsAt(AllItems(s, v), f, NewestOf(StackOf(h, key)))
  {
    var i := KeyIsListed(s, v, h, key);
    f := ListingFromKey(s, v, h, key, i);
    var rest := FlatFromKey(s, v, h, key, i);
    StandsInFront(AllItems(s, v), f, NewestOf(StackOf(h, key)), rest);
  }

  lemma FlatFromKey(s: seq<Entry>, v: View, h: Histories, key: Key, i: nat) returns (rest: seq<ObjectInfo>)
    requires Refines(s, v.bucket, h) && 0 !in key && VersionListing.Continues(s, v, Seek(s, PointerKey(v.bucket, key)))
    requires Seek(s, PointerKey(v.bucket, key)) <= i < |s| && InBucket(v.bucket, s[i])
             && VersionListing.KeyPart(v.bucket, s[i].raw) == key
    ensures VersionListing.Flat(s, v, Seek(s, PointerKey(v.bucket, key))) == NewestOf(StackOf(h, key)) + rest
  {
    var q := Seek(s, PointerKey(v.bucket, key));
    FlatStartsAtKey(s, v, h, q, key, i);
    GroupIsStack(s, v, h, key);
    rest := VersionListing.Flat(s, v, EndAt(s, v, q));
  }

  lemma StandsInFront(all: seq<ObjectInfo>, f: nat, g: seq<ObjectInfo>, rest: seq<ObjectInfo>)
    requires f <= |all| && all[f..] == g + rest
    ensures StandsAt(all, f, g)
  {
    assert |all[f..]| == |g| + |rest|;
    assert all[f..f + |g|] == all[f..][..|g|];
  }

  /** The record that makes the scan come to the key. */
  lemma KeyIsListed(s: seq<Entry>, v: View, h: Histories, key: Key) returns (i: nat)
    requires Refines(s, v.bucket, h) && 0 !in v.prefix
    requires 0 !in key && v.prefix <= key && StackOf(h, key) != []
    ensures Seek(s, BucketPrefix(v.bucket) + v.prefix) <= Seek(s, PointerKey(v.bucket, key)) <= i < |s|
    ensures InBucket(v.bucket, s[i]) && VersionListing.KeyPart(v.bucket, s[i].raw) == key == s[i].info.key
    ensures Consistent(s, v.bucket) && VersionListing.Continues(s, v, Seek(s, PointerKey(v.bucket, key)))
  {
    var st := StackOf(h, key);
    assert Represents(s, v.bucket, key, st);
    i := VersionHasRecord(s, v.bucket, key, st, 0);
    SeekMonotone(s, BucketPrefix(v.bucket) + v.prefix, PointerKey(v.bucket, key));
    RecordsAreConsistent(s, v.bucket, h);
    ContinuesUpTo(s, v, Seek(s, PointerKey(v.bucket, key)), i);
  }

  lemma ListingFromKey(s: seq<Entry>, v: View, h: Histories, key: Key, i: nat) returns (f: nat)
    requires Refines(s, v.bucket, h) && 0 !in v.prefix && [] !in h && v.prefix <= key
    requires Seek(s, BucketPrefix(v.bucket) + v.prefix) <= i < |s| && InBucket(v.bucket, s[i]) && s[i].info.key == key
    ensures f <= |AllItems(s, v)|
            && AllItems(s, v)[f..] == VersionListing.Flat(s, v, Seek(s, PointerKey(v.bucket, key)))
  {
    var pos, all := Seek(s, BucketPrefix(v.bucket) + v.prefix), AllItems(s, v);
    HistoriesArePageable(s, v, h);
    FlatShowsAll(s, v, pos, i);
    var k :| 0 <= k < |all| && all[k].key == key && all[k].versionId == s[i].info.versionId;
    StartOfAll(s, v, k);
    f := FlatFrom(s, v, pos, k);
  }

  lemma SeekMonotone(s: seq<Entry>, p: Key, k: Key)
    requires Sorted(s) && p <= k
    ensures Seek(s, p) <= Seek(s, k)
  {
    SeekSplits(s, p);
    SeekSplits(s, k);
    PrefixNotAbove(p, k);
    if Seek(s, k) < Seek(s, p) {
      BelowThenNotAbove(s[Seek(s, k)].raw, p, k);
    }
  }

  lemma FlatStartsAtKey(s: seq<Entry>, v: View, h: Histories, q: nat, key: Key, i: nat)
    requires Refines(s, v.bucket, h) && 0 !in key && q == Seek(s, PointerKey(v.bucket, key))
             && VersionListing.Continues(s, v, q)
    requires q <= i < |s| && InBucket(v.bucket, s[i]) && VersionListing.KeyPart(v.bucket, s[i].raw) == key
    ensures VersionListing.KeyPart(v.bucket, s[q].raw) == key
  {
    SeekSplits(s, PointerKey(v.bucket, key));
    KeyPartFrom(v.bucket, key, s[q].raw);
    LessTotal(key, VersionListing.KeyPart(v.bucket, s[q].raw));
    if q < i {
      KeyPartOrder(v.bucket, s[q].raw, s[i].raw);
    }
  }

  /** The pages can be followed to their end, and each line is a version of the
      stack of a key with the prefix. */
  ghost predicate ChainShowsOnly(s: seq<Entry>, req: VersionListing.Request, h: Histories) {
    && Named(s, req.view) && Reached(s, req)
    && forall line :: line in Chain(s, req) ==>
         line.Version? && req.view.prefix <= line.info.key && ShowsStack(h, line.info)
  }

  lemma ChainShowsStacksOnly(s: seq<Entry>, h: Histories, req: VersionListing.Request)
    requires Refines(s, req.view.bucket, h) && 0 !in req.view.prefix && [] !in h
    requires req.view.delimiter == [] && req.keyMarker == []
    ensures ChainShowsOnly(s, req, h)
  {
    var all := AllItems(s, req.view);
    HistoriesArePageable(s, req.view, h);
    PlainChainIsComplete(s, req);
    forall line | line in AsLines(all)
      ensures line.Version? && req.view.prefix <= line.info.key && ShowsStack(h, line.info)
    {
      var k :| 0 <= k < |all| && AsLines(all)[k] == line;
      ListedIsRecorded(s, req.view, h, Seek(s, BucketPrefix(req.view.bucket) + req.view.prefix), all[k]);
      FlatKeysAreKeys(s, req.view, Seek(s, BucketPrefix(req.view.bucket) + req.view.prefix), k);
    }
  }

  /** The pages can be followed to their end and show the stack from line `f` on. */
  ghost predicate ChainShows(s: seq<Entry>, req: VersionListing.Request, st: Stack, f: nat) {
    && Named(s, req.view) && Reached(s, req)
    && f + |st| <= |Chain(s, req)| && Chain(s, req)[f..f + |st|] == AsLines(NewestOf(st))
  }

  lemma ChainShowsStack(s: seq<Entry>, h: Histories, req: VersionListing.Request, key: Key) returns (f: nat)
    requires Refines(s, req.view.bucket, h) && 0 !in req.view.prefix && [] !in h
    requires req.view.delimiter == [] && req.keyMarker == []
    requires 0 !in key && req.view.prefix <= key && StackOf(h, key) != []
    ensures ChainShows(s, req, StackOf(h, key), f)
  {
    f := KeyStandsWithItsStack(s, req.view, h, key);
    HistoriesArePageable(s, req.view, h);
    ChainShowsBlock(s, req, f, StackOf(h, key));
  }

  lemma ChainShowsBlock(s: seq<Entry>, req: VersionListing.Request, f: nat, st: Stack)
    requires Named(s, req.view) && req.view.delimiter == [] && req.keyMarker == []
             && StandsAt(AllItems(s, req.view), f, NewestOf(st))
    ensures ChainShows(s, req, st, f)
  {
    PlainChainIsComplete(s, req);
    AsLinesSlice(AllItems(s, req.view), f, f + |st|);
  }

  /** After any run of puts and deletes under a strictly increasing clock, listing
      the versions without a delimiter, page after page, shows each key with the
      prefix with exactly the versions put and not yet deleted, newest first, and
      nothing else. */
  lemma RunsListTheirStacks(v: View, ops: seq<Op>, now: int, req: VersionListing.Request, key: Key) returns (f: nat)
    requires Clocked(ops, now) && 0 !in v.prefix && v.delimiter == [] && req.view == v && req.keyMarker == []
    requires 0 !in key && v.prefix <= key && StackOf(RunAfter(map[], ops), key) != []
    ensures ChainShows(Run([], v.bucket, ops), req, StackOf(RunAfter(map[], ops), key), f)
    ensures ChainShowsOnly(Run([], v.bucket, ops), req, RunAfter(map[], ops))
  {
    ClockedIsAllowed(map[], ops, now);
    RunRefines([], v.bucket, map[], ops);
    Versioning.NoEmptyKey(map[], ops, now);
    f := ChainShowsStack(Run([], v.bucket, ops), RunAfter(map[], ops), req, key);
    ChainShowsStacksOnly(Run([], v.bucket, ops), RunAfter(map[], ops), req);
  }
}
