/** What a listing of versions holds, and when its pages add up. */
module VersionPaging {
  import opened Keys
  import opened Sequences
  import opened Records
  import ObjectListing
  import opened VersionListing

  /** Records carry the key they are stored under. */
  predicate Consistent(s: seq<Entry>, bucket: Key) {
    forall i {:trigger InBucket(bucket, s[i])} ::
          0 <= i < |s| && InBucket(bucket, s[i]) ==> s[i].info.key == KeyPart(bucket, s[i].raw)
  }

  // ----- keys in record order -----

  lemma {:induction false} FirstPartOfKey(key: Key)
    requires 0 !in key
    ensures FirstPart(key) == key
  {
    if key != [] {
      FirstPartOfKey(key[1..]);
    }
  }

  /** Along the cursor the object keys never descend. */
  lemma FirstPartOrder(a: Key, b: Key)
    requires Less(a, b)
    ensures !Less(FirstPart(b), FirstPart(a))
  {
    var ka, kb := FirstPart(a), FirstPart(b);
    FirstPartMeans(a);
    FirstPartMeans(b);
    if Less(kb, ka) {
      LessMeans(kb, ka);
      var n: nat :| Differs(kb, ka, n);
      assert b[..n] == kb[..n] == ka[..n] == a[..n];
      assert ka[n] in ka;
      assert Differs(b, a, n);
      LessMeans(b, a);
      LessAsymmetric(a, b);
    }
  }

  lemma KeyPartOrder(bucket: Key, a: Key, b: Key)
    requires BucketPrefix(bucket) <= a && BucketPrefix(bucket) <= b && Less(a, b)
    ensures !Less(KeyPart(bucket, b), KeyPart(bucket, a))
  {
    var p := BucketPrefix(bucket);
    var ra, rb := a[|bucket| + 1..], b[|bucket| + 1..];
    assert a == p + ra && b == p + rb;
    PrefixCancels(p, ra, rb);
    FirstPartOrder(ra, rb);
  }

  /** A record at or behind `bucket/key` belongs to that key or a later one. */
  lemma KeyPartFrom(bucket: Key, key: Key, raw: Key)
    requires BucketPrefix(bucket) <= raw && 0 !in key
    ensures !Less(raw, PointerKey(bucket, key)) <==> !Less(KeyPart(bucket, raw), key)
  {
    var pointer, rest := PointerKey(bucket, key), raw[|bucket| + 1..];
    assert pointer[|bucket| + 1..] == key && raw == BucketPrefix(bucket) + rest;
    FirstPartOfKey(key);
    LessTotal(raw, pointer);
    LessIrreflexive(key);
    if Less(pointer, raw) {
      LessAsymmetric(pointer, raw);
      KeyPartOrder(bucket, pointer, raw);
    } else if Less(raw, pointer) {
      FirstPartMeans(rest);
      PrefixCancels(BucketPrefix(bucket), rest, key);
      PrefixNotAbove(FirstPart(rest), rest);
      if FirstPart(rest) != rest { NotAboveThenBelow(FirstPart(rest), rest, key); }
    }
  }

  /** Object keys and record keys share their prefixes, if those hold no 0x00. */
  lemma PrefixOfPart(bucket: Key, prefix: Key, raw: Key)
    requires BucketPrefix(bucket) <= raw && 0 !in prefix
    ensures prefix <= KeyPart(bucket, raw) <==> BucketPrefix(bucket) + prefix <= raw
  {
    var p, rest := BucketPrefix(bucket), raw[|bucket| + 1..];
    assert raw == p + rest;
    FirstPartMeans(rest);
    if p + prefix <= raw {
      assert prefix == rest[..|prefix|];
      forall n | 0 <= n < |prefix| ensures rest[n] != 0 {
        assert rest[n] == prefix[n];
      }
    }
  }

  // ----- one key -----

  lemma {:induction false} GroupIsBlock(s: seq<Entry>, bucket: Key, key: Key, pos: nat)
    requires pos <= |s|
    ensures var end := GroupEnd(s, bucket, key, pos);
            (forall j :: pos <= j < end ==> InGroup(bucket, key, s[j])) && (end < |s| ==> !InGroup(bucket, key, s[end]))
    decreases |s| - pos
  {
    if pos < |s| && InGroup(bucket, key, s[pos]) {
      GroupIsBlock(s, bucket, key, pos + 1);
    }
  }

  predicate DistinctVersions(xs: seq<ObjectInfo>) {
    forall i, j :: 0 <= i < j < |xs| ==> xs[i].versionId != xs[j].versionId
  }

  /** Gathering keeps one record of every version id, and nothing else. */
  lemma {:induction false} GatheredMeans(s: seq<Entry>, from: nat, end: nat)
    requires from <= end <= |s|
    ensures DistinctVersions(Gathered(s, from, end))
    ensures forall x :: x in Gathered(s, from, end) ==> exists i :: from <= i < end && s[i].info == x
    ensures forall i :: from <= i < end ==> HasVersion(Gathered(s, from, end), s[i].info.versionId)
  {
    if from < end {
      GatheredMeans(s, from, end - 1);
      var front, g := Gathered(s, from, end - 1), Gathered(s, from, end);
      forall i | from <= i < end ensures HasVersion(g, s[i].info.versionId) {
        if i < end - 1 {
          var j :| 0 <= j < |front| && front[j].versionId == s[i].info.versionId;
          assert g[j] == front[j];
        } else if |g| > |front| {
          assert g[|front|].versionId == s[i].info.versionId;
        }
      }
    }
  }

  predicate Descending(xs: seq<ObjectInfo>) {
    forall i, j :: 0 <= i < j < |xs| ==> xs[i].lastModified >= xs[j].lastModified
  }

  lemma {:induction false} InsertKeepsOrder(x: ObjectInfo, xs: seq<ObjectInfo>)
    requires Descending(xs)
    ensures Descending(InsertNewest(x, xs))
    ensures InsertNewest(x, xs)[0] == x || (xs != [] && InsertNewest(x, xs)[0] == xs[0])
  {
    if xs != [] && !(xs[0].lastModified < x.lastModified) {
      InsertKeepsOrder(x, xs[1..]);
      PutInFront(xs[0], InsertNewest(x, xs[1..]));
    } else {
      PutInFront(x, xs);
    }
  }

  lemma PutInFront(y: ObjectInfo, t: seq<ObjectInfo>)
    requires Descending(t) && (t != [] ==> y.lastModified >= t[0].lastModified)
    ensures Descending([y] + t)
  {
    forall i | 0 < i < |t| ensures y.lastModified >= t[i].lastModified {
      assert t[0].lastModified >= t[i].lastModified;
    }
  }

  lemma {:induction false} InsertAddsOne(x: ObjectInfo, xs: seq<ObjectInfo>)
    ensures multiset(InsertNewest(x, xs)) == multiset{x} + multiset(xs)
  {
    if xs != [] && !(xs[0].lastModified < x.lastModified) {
      InsertAddsOne(x, xs[1..]);
      InsertedBehindFirst(x, xs, InsertNewest(x, xs[1..]));
    } else {
      FirstApart([x] + xs);
    }
  }

  lemma {:induction false} NewestFirstMeans(xs: seq<ObjectInfo>)
    ensures Descending(NewestFirst(xs)) && multiset(NewestFirst(xs)) == multiset(xs)
  {
    if xs != [] {
      NewestFirstMeans(xs[..|xs| - 1]);
      InsertKeepsOrder(xs[|xs| - 1], NewestFirst(xs[..|xs| - 1]));
      InsertAddsOne(xs[|xs| - 1], NewestFirst(xs[..|xs| - 1]));
      LastApart(xs);
    }
  }

  lemma SortedMembers(xs: seq<ObjectInfo>)
    ensures forall x :: x in NewestFirst(xs) <==> x in xs
    ensures DistinctVersions(xs) ==> DistinctVersions(NewestFirst(xs))
  {
    var t := NewestFirst(xs);
    NewestFirstMeans(xs);
    forall x ensures x in t <==> x in xs {
      assert x in t <==> x in multiset(t);
      assert x in xs <==> x in multiset(xs);
    }
    if DistinctVersions(xs) {
      forall i, j | 0 <= i < j < |t| ensures t[i].versionId != t[j].versionId {
        DistinctSurvives(xs, t, i, j);
      }
    }
  }

  lemma DistinctSurvives(xs: seq<ObjectInfo>, t: seq<ObjectInfo>, i: nat, j: nat)
    requires DistinctVersions(xs) && multiset(t) == multiset(xs) && i < j < |t|
    ensures t[i].versionId != t[j].versionId
  {
    assert t[i] in multiset(t) && t[j] in multiset(t);
    assert t[i] in xs && t[j] in xs;
    if t[i] == t[j] {
      assert t == t[..j] + [t[j]] + t[j + 1..];
      assert t[i] in t[..j];
      assert multiset(t)[t[i]] >= 2;
      CountsOne(xs, t[i]);
    } else {
      var a :| 0 <= a < |xs| && xs[a] == t[i];
      var b :| 0 <= b < |xs| && xs[b] == t[j];
      assert a < b || b < a;
    }
  }

  lemma {:induction false} CountsOne(xs: seq<ObjectInfo>, x: ObjectInfo)
    requires DistinctVersions(xs)
    ensures multiset(xs)[x] <= 1
  {
    if xs != [] {
      CountsOne(xs[1..], x);
      assert xs == [xs[0]] + xs[1..];
      forall y | y in xs[1..] ensures y.versionId != xs[0].versionId {
        var j :| 0 <= j < |xs[1..]| && xs[1..][j] == y;
        assert xs[j + 1] == y;
      }
    }
  }

  // ----- all keys -----

  /** The order of a listing of versions: by key, newest first within a key, no
      version twice. */
  predicate Before(x: ObjectInfo, y: ObjectInfo) {
    Less(x.key, y.key) || (x.key == y.key && x.versionId != y.versionId && x.lastModified >= y.lastModified)
  }

  predicate Listed(items: seq<ObjectInfo>) {
    forall m, n :: 0 <= m < n < |items| ==> Before(items[m], items[n])
  }

  function GroupAt(s: seq<Entry>, v: View, pos: nat): seq<ObjectInfo>
    requires Continues(s, v, pos)
  {
    NewestFirst(Gathered(s, pos, EndAt(s, v, pos)))
  }

  function EndAt(s: seq<Entry>, v: View, pos: nat): (end: nat)
    requires Continues(s, v, pos)
    ensures pos < end <= |s|
  {
    GroupEnd(s, v.bucket, KeyPart(v.bucket, s[pos].raw), pos)
  }

  lemma GroupMeans(s: seq<Entry>, v: View, pos: nat)
    requires Consistent(s, v.bucket) && Continues(s, v, pos)
    ensures var (g, key) := (GroupAt(s, v, pos), KeyPart(v.bucket, s[pos].raw));
            && Descending(g) && DistinctVersions(g)
            && (forall x :: x in g ==> x.key == key)
            && (forall i :: pos <= i < EndAt(s, v, pos) ==> HasVersion(g, s[i].info.versionId))
  {
    var key, end := KeyPart(v.bucket, s[pos].raw), EndAt(s, v, pos);
    GroupIsBlock(s, v.bucket, key, pos);
    GatheredMeans(s, pos, end);
    NewestFirstMeans(Gathered(s, pos, end));
    SortedMembers(Gathered(s, pos, end));
    forall x | x in GroupAt(s, v, pos) ensures x.key == key {
      var i :| pos <= i < end && s[i].info == x;
      assert InBucket(v.bucket, s[i]);
    }
    forall i | pos <= i < end ensures HasVersion(GroupAt(s, v, pos), s[i].info.versionId) {
      var j :| 0 <= j < |Gathered(s, pos, end)| && Gathered(s, pos, end)[j].versionId == s[i].info.versionId;
      assert Gathered(s, pos, end)[j] in GroupAt(s, v, pos);
      var n :| 0 <= n < |GroupAt(s, v, pos)| && GroupAt(s, v, pos)[n] == Gathered(s, pos, end)[j];
    }
  }

  /** Behind the group of a key come only later keys. */
  lemma LaterKeys(s: seq<Entry>, v: View, pos: nat, j: nat)
    requires Sorted(s) && Continues(s, v, pos) && EndAt(s, v, pos) <= j < |s| && InBucket(v.bucket, s[j])
    ensures Less(KeyPart(v.bucket, s[pos].raw), KeyPart(v.bucket, s[j].raw))
  {
    var key, end := KeyPart(v.bucket, s[pos].raw), EndAt(s, v, pos);
    GroupIsBlock(s, v.bucket, key, pos);
    BucketIsBlock(s, v.bucket, pos, end, j);
    KeyPartOrder(v.bucket, s[pos].raw, s[end].raw);
    LessTotal(key, KeyPart(v.bucket, s[end].raw));
    if end < j {
      KeyPartOrder(v.bucket, s[end].raw, s[j].raw);
      BelowThenNotAbove(key, KeyPart(v.bucket, s[end].raw), KeyPart(v.bucket, s[j].raw));
    }
  }

  lemma BucketIsBlock(s: seq<Entry>, bucket: Key, i: nat, m: nat, j: nat)
    requires Sorted(s) && i <= m <= j < |s| && InBucket(bucket, s[i]) && InBucket(bucket, s[j])
    ensures InBucket(bucket, s[m])
  {
    if i < m < j {
      LessAsymmetric(s[i].raw, s[m].raw);
      LessAsymmetric(s[m].raw, s[j].raw);
      PrefixIsConvex(BucketPrefix(bucket), s[i].raw, s[m].raw, s[j].raw);
    }
  }

  lemma {:induction false} FlatKeysFrom(s: seq<Entry>, v: View, pos: nat, key: Key)
    requires Sorted(s) && Consistent(s, v.bucket)
    requires forall j :: pos <= j < |s| && InBucket(v.bucket, s[j]) ==> Less(key, KeyPart(v.bucket, s[j].raw))
    ensures forall x :: x in Flat(s, v, pos) ==> Less(key, x.key)
    decreases |s| - pos
  {
    if Continues(s, v, pos) {
      GroupMeans(s, v, pos);
      FlatKeysFrom(s, v, EndAt(s, v, pos), key);
      assert InBucket(v.bucket, s[pos]);
    }
  }

  /** Keys ascend, versions of a key come newest first, and no version comes twice. */
  lemma {:induction false} FlatIsListed(s: seq<Entry>, v: View, pos: nat)
    requires Sorted(s) && Consistent(s, v.bucket)
    ensures Listed(Flat(s, v, pos))
    decreases |s| - pos
  {
    if Continues(s, v, pos) {
      var key, g, end := KeyPart(v.bucket, s[pos].raw), GroupAt(s, v, pos), EndAt(s, v, pos);
      GroupMeans(s, v, pos);
      FlatIsListed(s, v, end);
      forall j | end <= j < |s| && InBucket(v.bucket, s[j]) ensures Less(key, KeyPart(v.bucket, s[j].raw)) {
        LaterKeys(s, v, pos, j);
      }
      FlatKeysFrom(s, v, end, key);
      JoinListed(g, Flat(s, v, end), key);
    }
  }

  lemma JoinListed(g: seq<ObjectInfo>, rest: seq<ObjectInfo>, key: Key)
    requires Descending(g) && DistinctVersions(g) && Listed(rest)
    requires (forall x :: x in g ==> x.key == key) && (forall x :: x in rest ==> Less(key, x.key))
    ensures Listed(g + rest)
  {
    forall m, n | 0 <= m < n < |g + rest| ensures Before((g + rest)[m], (g + rest)[n]) {
      if m < |g| { assert g[m] in g; }
      if n < |g| { assert g[n] in g; } else { assert rest[n - |g|] in rest; }
    }
  }

  predicate Shows(items: seq<ObjectInfo>, key: Key, versionId: Key) {
    exists m :: 0 <= m < |items| && items[m].key == key && items[m].versionId == versionId
  }

  /** A listing that starts at the prefix shows each version of each key with it. */
  lemma {:induction false} FlatShowsAll(s: seq<Entry>, v: View, pos: nat, i: nat)
    requires Sorted(s) && Consistent(s, v.bucket) && 0 !in v.prefix
    requires Seek(s, BucketPrefix(v.bucket) + v.prefix) <= pos <= i < |s|
    requires InBucket(v.bucket, s[i]) && v.prefix <= s[i].info.key
    ensures Shows(Flat(s, v, pos), s[i].info.key, s[i].info.versionId)
    decreases |s| - pos
  {
    ContinuesUpTo(s, v, pos, i);
    var g, end := GroupAt(s, v, pos), EndAt(s, v, pos);
    GroupMeans(s, v, pos);
    if i < end {
      GroupIsBlock(s, v.bucket, KeyPart(v.bucket, s[pos].raw), pos);
      assert InGroup(v.bucket, KeyPart(v.bucket, s[pos].raw), s[i]);
      HasShows(g, KeyPart(v.bucket, s[pos].raw), s[i].info.versionId);
      ShowsWider(g, Flat(s, v, end), s[i].info.key, s[i].info.versionId);
    } else {
      FlatShowsAll(s, v, end, i);
      ShowsWider(g, Flat(s, v, end), s[i].info.key, s[i].info.versionId);
    }
  }

  lemma HasShows(g: seq<ObjectInfo>, key: Key, versionId: Key)
    requires HasVersion(g, versionId) && forall x :: x in g ==> x.key == key
    ensures Shows(g, key, versionId)
  {
    var m :| 0 <= m < |g| && g[m].versionId == versionId;
    assert g[m] in g;
  }

  lemma ShowsWider(a: seq<ObjectInfo>, b: seq<ObjectInfo>, key: Key, versionId: Key)
    requires Shows(a, key, versionId) || Shows(b, key, versionId)
    ensures Shows(a + b, key, versionId)
  {
    if m :| 0 <= m < |a| && a[m].key == key && a[m].versionId == versionId {
      assert (a + b)[m] == a[m];
    } else {
      var m :| 0 <= m < |b| && b[m].key == key && b[m].versionId == versionId;
      assert (a + b)[|a| + m] == b[m];
    }
  }

  /** The keys with the prefix lie together, right behind the first seek. */
  lemma ContinuesUpTo(s: seq<Entry>, v: View, pos: nat, i: nat)
    requires Sorted(s) && Consistent(s, v.bucket) && 0 !in v.prefix
    requires Seek(s, BucketPrefix(v.bucket) + v.prefix) <= pos <= i < |s|
    requires InBucket(v.bucket, s[i]) && v.prefix <= s[i].info.key
    ensures Continues(s, v, pos)
  {
    var p := BucketPrefix(v.bucket) + v.prefix;
    SeekSplits(s, p);
    PrefixOfPart(v.bucket, v.prefix, s[i].raw);
    if pos < i {
      LessAsymmetric(s[pos].raw, s[i].raw);
      PrefixIsConvex(p, p, s[pos].raw, s[i].raw);
      assert BucketPrefix(v.bucket) <= p <= s[pos].raw;
    }
    PrefixOfPart(v.bucket, v.prefix, s[pos].raw);
  }

  // ----- resuming at a marker -----

  /** The whole listing of a view. */
  function AllItems(s: seq<Entry>, v: View): seq<ObjectInfo> {
    Flat(s, v, Seek(s, BucketPrefix(v.bucket) + v.prefix))
  }

  /** An entry without a version id is the newest of its key (VersionStack: it is
      the only one), so that a marker without one still names it. */
  predicate Markable(items: seq<ObjectInfo>) {
    forall i :: 0 < i < |items| && items[i].versionId == [] ==> items[i - 1].key != items[i].key
  }

  ghost predicate Pageable(s: seq<Entry>, v: View) {
    Sorted(s) && Consistent(s, v.bucket) && 0 !in v.prefix && Markable(AllItems(s, v))
  }

  /** From the first entry of a key on, the listing is the one that starts there. */
  lemma {:induction false} FlatFrom(s: seq<Entry>, v: View, pos: nat, k: nat) returns (f: nat)
    requires Sorted(s) && Consistent(s, v.bucket) && k < |Flat(s, v, pos)|
    requires pos > 0 && InBucket(v.bucket, s[pos - 1])
             ==> Less(KeyPart(v.bucket, s[pos - 1].raw), KeyPart(v.bucket, s[pos].raw))
    requires Continues(s, v, pos) && pos <= Seek(s, PointerKey(v.bucket, Flat(s, v, pos)[k].key))
    ensures var items := Flat(s, v, pos);
            f <= k && items[f..] == Flat(s, v, Seek(s, PointerKey(v.bucket, items[k].key)))
                && items[f].key == items[k].key
    decreases |s| - pos
  {
    var g, end, items := GroupAt(s, v, pos), EndAt(s, v, pos), Flat(s, v, pos);
    var key, q := items[k].key, Seek(s, PointerKey(v.bucket, items[k].key));
    GroupMeans(s, v, pos);
    FirstPartMeans(s[pos].raw[|v.bucket| + 1..]);
    if k < |g| {
      assert g[k] in g && g[0] in g;
      SeekSplits(s, PointerKey(v.bucket, key));
      LessIrreflexive(key);
      KeyPartFrom(v.bucket, key, s[pos].raw);
      f := 0;
      assert items[0..] == items;
    } else {
      f := FlatBeyond(s, v, pos, k);
    }
  }

  lemma FlatBeyond(s: seq<Entry>, v: View, pos: nat, k: nat) returns (f: nat)
    requires Sorted(s) && Consistent(s, v.bucket) && Continues(s, v, pos)
             && |GroupAt(s, v, pos)| <= k < |Flat(s, v, pos)|
    ensures var items := Flat(s, v, pos);
            f <= k && items[f..] == Flat(s, v, Seek(s, PointerKey(v.bucket, items[k].key)))
                && items[f].key == items[k].key
    decreases |s| - pos, 0
  {
    var g, end, items := GroupAt(s, v, pos), EndAt(s, v, pos), Flat(s, v, pos);
    var rest := Flat(s, v, end);
    assert items == g + rest && items[k] == rest[k - |g|];
    GroupIsBlock(s, v.bucket, KeyPart(v.bucket, s[pos].raw), pos);
    assert Continues(s, v, end);
    LaterKeys(s, v, pos, end);
    assert InGroup(v.bucket, KeyPart(v.bucket, s[pos].raw), s[end - 1]);
    KeyIsBehind(s, v, end, k - |g|);
    var h := FlatFrom(s, v, end, k - |g|);
    f := |g| + h;
    DropBehind(g, rest, h, f);
  }

  /** The pointer key of something listed from `pos` on lies at or behind `pos`. */
  lemma KeyIsBehind(s: seq<Entry>, v: View, pos: nat, k: nat)
    requires Sorted(s) && Consistent(s, v.bucket) && pos > 0 && Continues(s, v, pos) && k < |Flat(s, v, pos)|
    requires InBucket(v.bucket, s[pos - 1]) && Less(KeyPart(v.bucket, s[pos - 1].raw), KeyPart(v.bucket, s[pos].raw))
    ensures pos <= Seek(s, PointerKey(v.bucket, Flat(s, v, pos)[k].key))
  {
    var key := Flat(s, v, pos)[k].key;
    var before := KeyPart(v.bucket, s[pos - 1].raw);
    forall j | pos <= j < |s| && InBucket(v.bucket, s[j]) ensures Less(before, KeyPart(v.bucket, s[j].raw)) {
      if pos < j {
        KeyPartOrder(v.bucket, s[pos].raw, s[j].raw);
        BelowThenNotAbove(before, KeyPart(v.bucket, s[pos].raw), KeyPart(v.bucket, s[j].raw));
      }
    }
    FlatKeysFrom(s, v, pos, before);
    assert Flat(s, v, pos)[k] in Flat(s, v, pos);
    FlatKeysAreKeys(s, v, pos, k);
    SeekSplits(s, PointerKey(v.bucket, key));
    LessAsymmetric(before, key);
    KeyPartFrom(v.bucket, key, s[pos - 1].raw);
  }

  lemma {:induction false} FlatKeysAreKeys(s: seq<Entry>, v: View, pos: nat, k: nat)
    requires Consistent(s, v.bucket) && k < |Flat(s, v, pos)|
    ensures 0 !in Flat(s, v, pos)[k].key && v.prefix <= Flat(s, v, pos)[k].key
    decreases |s| - pos
  {
    var g := GroupAt(s, v, pos);
    GroupMeans(s, v, pos);
    FirstPartMeans(s[pos].raw[|v.bucket| + 1..]);
    if k < |g| {
      assert g[k] in g;
    } else {
      FlatKeysAreKeys(s, v, EndAt(s, v, pos), k - |g|);
    }
  }

  lemma {:induction false} BehindAt(items: seq<ObjectInfo>, req: Request, g: nat)
    requires g < |items| && IsMarker(req, items[g]) && forall h :: 0 <= h < g ==> !IsMarker(req, items[h])
    ensures Behind(items, req) == items[g + 1..]
  {
    if g > 0 {
      assert !IsMarker(req, items[0]);
      BehindAt(items[1..], req, g - 1);
    }
  }

  /** What a request lists, before rolling up. */
  function Rest(s: seq<Entry>, req: Request): seq<ObjectInfo> {
    var items := Flat(s, req.view, Start(s, req));
    if req.keyMarker == [] then items else Behind(items, req)
  }

  lemma StartOfAll(s: seq<Entry>, v: View, k: nat)
    requires Pageable(s, v) && k < |AllItems(s, v)|
    ensures var pos := Seek(s, BucketPrefix(v.bucket) + v.prefix);
            && Continues(s, v, pos) && pos <= Seek(s, PointerKey(v.bucket, AllItems(s, v)[k].key))
            && (pos > 0 && InBucket(v.bucket, s[pos - 1])
               ==> Less(KeyPart(v.bucket, s[pos - 1].raw), KeyPart(v.bucket, s[pos].raw)))
  {
    var pos, key := Seek(s, BucketPrefix(v.bucket) + v.prefix), AllItems(s, v)[k].key;
    FlatKeysAreKeys(s, v, pos, k);
    SeekSplits(s, BucketPrefix(v.bucket) + v.prefix);
    SeekSplits(s, PointerKey(v.bucket, key));
    PrefixNotAbove(BucketPrefix(v.bucket) + v.prefix, PointerKey(v.bucket, key));
    if pos > 0 {
      BelowThenNotAbove(s[pos - 1].raw, BucketPrefix(v.bucket) + v.prefix, PointerKey(v.bucket, key));
      if InBucket(v.bucket, s[pos - 1]) {
        KeyPartFrom(v.bucket, v.prefix, s[pos - 1].raw);
        PrefixNotAbove(v.prefix, KeyPart(v.bucket, s[pos].raw));
        BelowThenNotAbove(KeyPart(v.bucket, s[pos - 1].raw), v.prefix, KeyPart(v.bucket, s[pos].raw));
      }
    }
  }

  /** A marker that names a listed entry resumes right behind it. */
  lemma MarkerResumes(s: seq<Entry>, req: Request, k: nat)
    requires Pageable(s, req.view) && k < |AllItems(s, req.view)| && AllItems(s, req.view)[k].key != []
    ensures Rest(s, req.Resume(AllItems(s, req.view)[k])) == AllItems(s, req.view)[k + 1..]
  {
    var v, all := req.view, AllItems(s, req.view);
    StartOfAll(s, v, k);
    var f := FlatFrom(s, v, Seek(s, BucketPrefix(v.bucket) + v.prefix), k);
    FlatIsListed(s, v, Seek(s, BucketPrefix(v.bucket) + v.prefix));
    assert Start(s, req.Resume(all[k])) == Seek(s, PointerKey(v.bucket, all[k].key));
    BehindMarker(all, req.Resume(all[k]), f, k);
  }

  lemma BehindMarker(all: seq<ObjectInfo>, next: Request, f: nat, k: nat)
    requires Listed(all) && Markable(all) && f <= k < |all| && all[f].key == all[k].key
    requires next.keyMarker == all[k].key && next.versionIdMarker == all[k].versionId
    ensures Behind(all[f..], next) == all[k + 1..]
  {
    forall h | 0 <= h < k - f ensures !IsMarker(next, all[f..][h]) {
      EarlierIsNoMarker(all, next, f, f + h, k);
    }
    BehindAt(all[f..], next, k - f);
  }

  lemma EarlierIsNoMarker(all: seq<ObjectInfo>, next: Request, f: nat, h: nat, k: nat)
    requires Listed(all) && Markable(all) && f <= h < k < |all| && all[f].key == all[k].key
    requires next.keyMarker == all[k].key && next.versionIdMarker == all[k].versionId
    ensures !IsMarker(next, all[h])
  {
    LessIrreflexive(all[k].key);
    assert Before(all[h], all[k]);
    if all[k].versionId == [] {
      if f < k - 1 {
        assert Before(all[f], all[k - 1]) && Before(all[k - 1], all[k]);
        if Less(all[f].key, all[k - 1].key) { LessAsymmetric(all[f].key, all[k - 1].key); }
      }
    }
  }

  /** The whole listing shows exactly the versions on record for keys with the
      prefix, each once, keys ascending and newest first within a key. */
  lemma ListingIsExact(s: seq<Entry>, v: View, key: Key, versionId: Key)
    requires Pageable(s, v)
    ensures Listed(AllItems(s, v))
    ensures Shows(AllItems(s, v), key, versionId) <==> OnRecord(s, v, key, versionId)
  {
    var pos := Seek(s, BucketPrefix(v.bucket) + v.prefix);
    FlatIsListed(s, v, pos);
    if OnRecord(s, v, key, versionId) {
      var i :| 0 <= i < |s| && InBucket(v.bucket, s[i]) && v.prefix <= s[i].info.key && s[i].info.key == key
          && s[i].info.versionId == versionId;
      SeekSplits(s, BucketPrefix(v.bucket) + v.prefix);
      PrefixOfPart(v.bucket, v.prefix, s[i].raw);
      PrefixNotAbove(BucketPrefix(v.bucket) + v.prefix, s[i].raw);
      FlatShowsAll(s, v, pos, i);
    }
    if Shows(AllItems(s, v), key, versionId) {
      var m :| 0 <= m < |AllItems(s, v)| && AllItems(s, v)[m].key == key && AllItems(s, v)[m].versionId == versionId;
      FlatComesFrom(s, v, pos, m);
    }
  }

  lemma {:induction false} BehindIsEmpty(items: seq<ObjectInfo>, req: Request)
    ensures Behind(items, req) == [] <==> forall g :: 0 <= g < |items| - 1 ==> !IsMarker(req, items[g])
  {
    if |items| > 1 {
      BehindIsEmpty(items[1..], req);
      if !IsMarker(req, items[0]) && Behind(items[1..], req) == [] {
        forall g | 0 < g < |items| - 1 ensures !IsMarker(req, items[g]) {
          assert items[g] == items[1..][g - 1];
        }
      }
      if !IsMarker(req, items[0]) && Behind(items[1..], req) != [] {
        var g :| 0 <= g < |items[1..]| - 1 && IsMarker(req, items[1..][g]);
        assert IsMarker(req, items[g + 1]);
      }
    }
  }

  /** A scan that starts at the key of some entry runs through the rest of the listing. */
  lemma FlatFromMarker(s: seq<Entry>, req: Request, k: nat) returns (f: nat)
    requires Pageable(s, req.view) && k < |AllItems(s, req.view)| && AllItems(s, req.view)[k].key == req.keyMarker != []
    ensures f <= k && AllItems(s, req.view)[f..] == Flat(s, req.view, Start(s, req))
  {
    StartOfAll(s, req.view, k);
    f := FlatFrom(s, req.view, Seek(s, BucketPrefix(req.view.bucket) + req.view.prefix), k);
  }

  /** A page behind a key marker is empty, and says that nothing follows, if and only
      if the markers match no entry of the listing but possibly the last. */
  lemma UnknownMarkersEndTheListing(s: seq<Entry>, req: Request)
    requires Pageable(s, req.view) && req.keyMarker != []
    ensures PageOf(s, req) == Page([], [], [], false, None)
            <==> forall k :: 0 <= k < |AllItems(s, req.view)| - 1 ==> !IsMarker(req, AllItems(s, req.view)[k])
  {
    var all, items := AllItems(s, req.view), Flat(s, req.view, Start(s, req));
    BehindIsEmpty(items, req);
    EmptyPage(s, req);
    if k :| 0 <= k < |all| - 1 && IsMarker(req, all[k]) {
      var f := FlatFromMarker(s, req, k);
      assert items[k - f] == all[k] && k - f < |items| - 1;
    }
    if g :| 0 <= g < |items| - 1 && IsMarker(req, items[g]) {
      FlatComesFrom(s, req.view, Start(s, req), g);
      ListingIsExact(s, req.view, items[g].key, items[g].versionId);
      var m :| 0 <= m < |all| && all[m].key == items[g].key;
      var f := FlatFromMarker(s, req, m);
      assert all[f + g] == items[g] && f + g < |all| - 1;
    }
  }

  lemma EmptyPage(s: seq<Entry>, req: Request)
    ensures PageOf(s, req) == Page([], [], [], false, None) <==> Rest(s, req) == []
  {
    var lines, n := Visible(s, req), PageSize(s, req);
    if Rest(s, req) != [] {
      assert lines != [];
      FirstLineIsShown(lines, n);
    }
  }

  lemma {:induction false} FirstLineIsShown(lines: seq<Line>, n: nat)
    requires 0 < n <= |lines|
    ensures VersionsIn(lines, n, false) != [] || VersionsIn(lines, n, true) != [] || PathsIn(lines, n) != []
  {
    if n > 1 {
      FirstLineIsShown(lines, n - 1);
    }
  }

  ghost predicate OnRecord(s: seq<Entry>, v: View, key: Key, versionId: Key) {
    exists i :: 0 <= i < |s| && InBucket(v.bucket, s[i]) && v.prefix <= s[i].info.key && s[i].info.key == key
        && s[i].info.versionId == versionId
  }

  lemma {:induction false} FlatComesFrom(s: seq<Entry>, v: View, pos: nat, m: nat)
    requires Consistent(s, v.bucket) && m < |Flat(s, v, pos)|
    ensures OnRecord(s, v, Flat(s, v, pos)[m].key, Flat(s, v, pos)[m].versionId)
    decreases |s| - pos
  {
    var g, end := GroupAt(s, v, pos), EndAt(s, v, pos);
    if m < |g| {
      GatheredMeans(s, pos, end);
      SortedMembers(Gathered(s, pos, end));
      GroupIsBlock(s, v.bucket, KeyPart(v.bucket, s[pos].raw), pos);
      assert g[m] in g;
      var i :| pos <= i < end && s[i].info == g[m];
      assert InGroup(v.bucket, KeyPart(v.bucket, s[pos].raw), s[i]) && InBucket(v.bucket, s[i]);
    } else {
      FlatComesFrom(s, v, end, m - |g|);
    }
  }

  // ----- the common prefixes -----

  /** A common prefix on a line is new, and that of the line's entry. */
  lemma {:induction false} PrefixLine(items: seq<ObjectInfo>, v: View, seen: set<Key>, m: nat)
    requires m < |Lines(items, v, seen)| && Lines(items, v, seen)[m].Prefix?
    ensures var line := Lines(items, v, seen)[m];
            line.path !in seen && line.info in items && PathOf(v, line.info) == Some(line.path)
    decreases |items|
  {
    var path := PathOf(v, items[0]);
    if path.Some? && path.value in seen {
      PrefixLine(items[1..], v, seen, m);
    } else if m > 0 {
      PrefixLine(items[1..], v, if path.Some? then seen + {path.value} else seen, m - 1);
    }
  }

  /** The common prefixes come out in ascending order, so sorting them is a no-op. */
  lemma {:induction false} PrefixesAscend(items: seq<ObjectInfo>, v: View, seen: set<Key>, m: nat, n: nat)
    requires Listed(items) && m < n < |Lines(items, v, seen)| && Lines(items, v, seen)[m].Prefix?
             && Lines(items, v, seen)[n].Prefix?
    ensures Less(Lines(items, v, seen)[m].path, Lines(items, v, seen)[n].path)
    decreases |items|
  {
    var path := PathOf(v, items[0]);
    var now := if path.Some? then seen + {path.value} else seen;
    if path.Some? && path.value in seen {
      PrefixesAscend(items[1..], v, seen, m, n);
    } else if m > 0 {
      PrefixesAscend(items[1..], v, now, m - 1, n - 1);
    } else {
      PrefixLine(items[1..], v, now, n - 1);
      LaterPrefix(items, v, Lines(items[1..], v, now)[n - 1].info);
    }
  }

  lemma LaterPrefix(items: seq<ObjectInfo>, v: View, x: ObjectInfo)
    requires Listed(items) && items != [] && x in items[1..]
    requires PathOf(v, items[0]).Some? && PathOf(v, x).Some? && PathOf(v, items[0]) != PathOf(v, x)
    ensures Less(PathOf(v, items[0]).value, PathOf(v, x).value)
  {
    var j :| 0 <= j < |items[1..]| && items[1..][j] == x;
    assert Before(items[0], items[j + 1]);
    ObjectListing.RollUpsAscend(v, items[0].key, x.key);
  }

  // ----- what a page leaves to the next -----

  /** The paths of the first `n` lines. */
  function PathSet(lines: seq<Line>, n: nat): set<Key>
    requires n <= |lines|
  {
    if n == 0 then {} else PathSet(lines, n - 1) + if lines[n - 1].Prefix? then {lines[n - 1].path} else {}
  }

  /** The position of the entry behind line `n`. */
  function CutAt(items: seq<ObjectInfo>, v: View, seen: set<Key>, n: nat): (i: nat)
    requires 0 < n <= |Lines(items, v, seen)|
    ensures i < |items|
    decreases |items|
  {
    var path := PathOf(v, items[0]);
    if path.Some? && path.value in seen then 1 + CutAt(items[1..], v, seen, n)
    else if n == 1 then 0
    else 1 + CutAt(items[1..], v, if path.Some? then seen + {path.value} else seen, n - 1)
  }

  /** Some entry up to `i` rolls up to `d`. */
  ghost predicate RollsUpTo(items: seq<ObjectInfo>, v: View, i: nat, d: Key) {
    exists j :: 0 <= j <= i && j < |items| && PathOf(v, items[j]) == Some(d)
  }

  /** The common prefixes on the first `n` lines come from entries up to the cut. */
  lemma {:induction false} PathsUpToCut(items: seq<ObjectInfo>, v: View, seen: set<Key>, n: nat, d: Key)
    requires 0 < n <= |Lines(items, v, seen)| && d in PathSet(Lines(items, v, seen), n)
    ensures RollsUpTo(items, v, CutAt(items, v, seen, n), d)
    decreases |items|
  {
    var path := PathOf(v, items[0]);
    if path.Some? && path.value in seen {
      PathsUpToCut(items[1..], v, seen, n, d);
      RollsUpLater(items, v, CutAt(items[1..], v, seen, n), d);
    } else {
      var now := if path.Some? then seen + {path.value} else seen;
      var first := if path.Some? then Prefix(path.value, items[0]) else Version(items[0]);
      PathSetCons(first, Lines(items[1..], v, now), n);
      if path == Some(d) {
        assert PathOf(v, items[0]) == Some(d);
      } else {
        assert n > 1;
        PathsUpToCut(items[1..], v, now, n - 1, d);
        RollsUpLater(items, v, CutAt(items[1..], v, now, n - 1), d);
      }
    }
  }

  lemma RollsUpLater(items: seq<ObjectInfo>, v: View, i: nat, d: Key)
    requires items != [] && RollsUpTo(items[1..], v, i, d)
    ensures RollsUpTo(items, v, i + 1, d)
  {
    var j :| 0 <= j <= i && j < |items[1..]| && PathOf(v, items[1..][j]) == Some(d);
    assert items[j + 1] == items[1..][j];
  }

  /** The entry behind line `n`, and what the other lines come from. */
  lemma {:induction false} CutLines(items: seq<ObjectInfo>, v: View, seen: set<Key>, n: nat) returns (i: nat)
    requires 0 < n <= |Lines(items, v, seen)|
    ensures var lines := Lines(items, v, seen);
            i == CutAt(items, v, seen, n) && lines[n - 1].info == items[i]
                && lines[n..] == Lines(items[i + 1..], v, seen + PathSet(lines, n))
    decreases |items|, 1
  {
    var path := PathOf(v, items[0]);
    if path.Some? && path.value in seen {
      var j := CutLines(items[1..], v, seen, n);
      i := j + 1;
      DropBehind([items[0]], items[1..], j + 1, i + 1);
      assert [items[0]] + items[1..] == items;
    } else {
      i := CutNewLine(items, v, seen, n);
    }
  }

  lemma {:induction false} CutNewLine(items: seq<ObjectInfo>, v: View, seen: set<Key>, n: nat) returns (i: nat)
    requires 0 < n <= |Lines(items, v, seen)|
    requires PathOf(v, items[0]).None? || PathOf(v, items[0]).value !in seen
    ensures var lines := Lines(items, v, seen);
            i == CutAt(items, v, seen, n) && lines[n - 1].info == items[i]
                && lines[n..] == Lines(items[i + 1..], v, seen + PathSet(lines, n))
    decreases |items|, 0
  {
    var path := PathOf(v, items[0]);
    var now := if path.Some? then seen + {path.value} else seen;
    var rest := Lines(items[1..], v, now);
    var first := if path.Some? then Prefix(path.value, items[0]) else Version(items[0]);
    if n == 1 {
      i := 0;
      CutFirst(first, rest, seen);
    } else {
      var j := CutLines(items[1..], v, now, n - 1);
      i := j + 1;
      DropBehind([items[0]], items[1..], j + 1, i + 1);
      assert [items[0]] + items[1..] == items;
      CutLater(first, rest, seen, n);
    }
  }

  lemma CutFirst(first: Line, rest: seq<Line>, seen: set<Key>)
    ensures ([first] + rest)[1..] == rest
    ensures seen + PathSet([first] + rest, 1) == if first.Prefix? then seen + {first.path} else seen
  {
    PathSetCons(first, rest, 1);
  }

  lemma CutLater(first: Line, rest: seq<Line>, seen: set<Key>, n: nat)
    requires 1 < n <= |rest| + 1
    ensures ([first] + rest)[n..] == rest[n - 1..] && ([first] + rest)[n - 1] == rest[n - 2]
    ensures (if first.Prefix? then seen + {first.path} else seen) + PathSet(rest, n - 1)
            == seen + PathSet([first] + rest, n)
  {
    PathSetCons(first, rest, n);
  }

  lemma {:induction false} PathSetCons(line: Line, rest: seq<Line>, n: nat)
    requires 0 < n <= |rest| + 1
    ensures PathSet([line] + rest, n) == (if line.Prefix? then {line.path} else {}) + PathSet(rest, n - 1)
  {
    if n > 1 {
      PathSetCons(line, rest, n - 1);
    }
  }

  /** Some entry rolls up to one of the paths in `old`. */
  ghost predicate Repeats(items: seq<ObjectInfo>, v: View, shown: set<Key>) {
    exists i :: 0 <= i < |items| && PathOf(v, items[i]).Some? && PathOf(v, items[i]).value in shown
  }

  /** Forgetting paths already shown adds lines, unless no entry rolls up to them. */
  lemma {:induction false} ForgottenPaths(items: seq<ObjectInfo>, v: View, seen: set<Key>, shown: set<Key>)
    ensures |Lines(items, v, seen + shown)| <= |Lines(items, v, seen)|
    ensures !Repeats(items, v, shown - seen) ==> Lines(items, v, seen + shown) == Lines(items, v, seen)
    ensures Repeats(items, v, shown - seen) ==> |Lines(items, v, seen + shown)| < |Lines(items, v, seen)|
    decreases |items|
  {
    if items != [] {
      var rest, path := items[1..], PathOf(v, items[0]);
      RepeatsUnfolds(items, v, shown - seen);
      if path.None? || path.value in seen {
        ForgottenPaths(rest, v, seen, shown);
      } else {
        var d := path.value;
        ForgottenPaths(rest, v, seen + {d}, shown);
        assert seen + {d} + shown == seen + shown + {d};
        if d in shown {
          assert seen + shown + {d} == seen + shown;
        } else {
          assert shown - (seen + {d}) == shown - seen;
        }
      }
    }
  }

  lemma RepeatsUnfolds(items: seq<ObjectInfo>, v: View, shown: set<Key>)
    requires items != []
    ensures Repeats(items, v, shown)
            <==> (PathOf(v, items[0]).Some? && PathOf(v, items[0]).value in shown) || Repeats(items[1..], v, shown)
  {
    if i :| 0 <= i < |items| && PathOf(v, items[i]).Some? && PathOf(v, items[i]).value in shown {
      assert i > 0 ==> items[1..][i - 1] == items[i];
    }
    if i :| 0 <= i < |items[1..]| && PathOf(v, items[1..][i]).Some? && PathOf(v, items[1..][i]).value in shown {
      assert items[i + 1] == items[1..][i];
    }
  }

  // ----- the chain of pages -----

  /** The request lists an end of the whole listing, as every request does that
      starts without a marker or follows one. */
  ghost predicate Reached(s: seq<Entry>, req: Request) {
    exists j :: 0 <= j <= |AllItems(s, req.view)| && Rest(s, req) == AllItems(s, req.view)[j..]
  }

  ghost predicate Named(s: seq<Entry>, v: View) {
    Pageable(s, v) && forall x :: x in AllItems(s, v) ==> x.key != []
  }

  lemma FirstPageReached(s: seq<Entry>, req: Request)
    requires req.keyMarker == []
    ensures Reached(s, req)
  {
    assert Rest(s, req) == AllItems(s, req.view)[0..];
  }

  function NextRequest(s: seq<Entry>, req: Request): Request
    requires Truncated(s, req)
  {
    req.Resume(Visible(s, req)[PageSize(s, req) - 1].info)
  }

  /** Some entry behind the page rolls up to a common prefix on the page. */
  ghost predicate Straddles(s: seq<Entry>, req: Request)
    requires Truncated(s, req)
  {
    Repeats(Rest(s, NextRequest(s, req)), req.view, PathSet(Visible(s, req), PageSize(s, req)))
  }

  /** The next page lists what is left, strictly less than before; the lines are
      those still missing if and only if the page does not straddle a prefix, and
      too many otherwise. */
  lemma NextPage(s: seq<Entry>, req: Request)
    requires Named(s, req.view) && Reached(s, req) && Truncated(s, req)
    ensures Reached(s, NextRequest(s, req)) && |Rest(s, NextRequest(s, req))| < |Rest(s, req)|
    ensures var missing := Visible(s, req)[PageSize(s, req)..];
            && (!Straddles(s, req) ==> Visible(s, NextRequest(s, req)) == missing)
            && (Straddles(s, req) ==> |Visible(s, NextRequest(s, req))| > |missing|)
  {
    NextRest(s, req);
    ForgottenAll(Rest(s, NextRequest(s, req)), req.view, PathSet(Visible(s, req), PageSize(s, req)));
  }

  lemma ForgottenAll(items: seq<ObjectInfo>, v: View, shown: set<Key>)
    ensures !Repeats(items, v, shown) ==> Lines(items, v, shown) == Lines(items, v, {})
    ensures Repeats(items, v, shown) ==> |Lines(items, v, shown)| < |Lines(items, v, {})|
  {
    ForgottenPaths(items, v, {}, shown);
    assert {} + shown == shown && shown - {} == shown;
  }

  lemma NextRest(s: seq<Entry>, req: Request)
    requires Named(s, req.view) && Reached(s, req) && Truncated(s, req)
    ensures Reached(s, NextRequest(s, req)) && |Rest(s, NextRequest(s, req))| < |Rest(s, req)|
    ensures var n := PageSize(s, req);
            Visible(s, req)[n..] == Lines(Rest(s, NextRequest(s, req)), req.view, PathSet(Visible(s, req), n))
  {
    var i := CutAll(Rest(s, req), req.view, PageSize(s, req));
    RestBehind(s, req, i);
  }

  lemma CutAll(items: seq<ObjectInfo>, v: View, n: nat) returns (i: nat)
    requires 0 < n <= |Lines(items, v, {})|
    ensures var lines := Lines(items, v, {});
            i == CutAt(items, v, {}, n) && lines[n - 1].info == items[i]
                && lines[n..] == Lines(items[i + 1..], v, PathSet(lines, n))
  {
    i := CutLines(items, v, {}, n);
    assert {} + PathSet(Lines(items, v, {}), n) == PathSet(Lines(items, v, {}), n);
  }

  lemma RestBehind(s: seq<Entry>, req: Request, i: nat)
    requires Named(s, req.view) && Reached(s, req) && Truncated(s, req)
    requires i < |Rest(s, req)| && Visible(s, req)[PageSize(s, req) - 1].info == Rest(s, req)[i]
    ensures Rest(s, NextRequest(s, req)) == Rest(s, req)[i + 1..] && Reached(s, NextRequest(s, req))
  {
    var j :| 0 <= j <= |AllItems(s, req.view)| && Rest(s, req) == AllItems(s, req.view)[j..];
    ResumeBehind(s, req, Rest(s, req), i, j);
  }

  lemma ResumeBehind(s: seq<Entry>, req: Request, items: seq<ObjectInfo>, i: nat, j: nat)
    requires Named(s, req.view) && j <= |AllItems(s, req.view)| && items == AllItems(s, req.view)[j..] && i < |items|
    ensures Rest(s, req.Resume(items[i])) == items[i + 1..] && Reached(s, req.Resume(items[i]))
  {
    var all := AllItems(s, req.view);
    assert items[i] == all[j + i] && all[j + i] in all;
    MarkerResumes(s, req, j + i);
    assert items[i + 1..] == all[j + i + 1..];
  }

  /** The lines of a page followed by those of all pages behind its markers. */
  ghost function Chain(s: seq<Entry>, req: Request): seq<Line>
    requires Named(s, req.view) && Reached(s, req)
    decreases |Rest(s, req)|
  {
    Visible(s, req)[..PageSize(s, req)] +
    if !Truncated(s, req) then []
    else
      NextPage(s, req);
      Chain(s, NextRequest(s, req))
  }

  /** No page of the chain straddles a common prefix. */
  ghost predicate Smooth(s: seq<Entry>, req: Request)
    requires Named(s, req.view) && Reached(s, req)
    decreases |Rest(s, req)|
  {
    Truncated(s, req) ==> !Straddles(s, req) && (NextPage(s, req); Smooth(s, NextRequest(s, req)))
  }

  lemma ChainUnfolds(s: seq<Entry>, req: Request)
    requires Named(s, req.view) && Reached(s, req) && Truncated(s, req)
    ensures Reached(s, NextRequest(s, req))
    ensures Chain(s, req) == Visible(s, req)[..PageSize(s, req)] + Chain(s, NextRequest(s, req))
    ensures Smooth(s, req) <==> !Straddles(s, req) && Smooth(s, NextRequest(s, req))
  {
    NextPage(s, req);
  }

  /** Following the markers yields at least the lines of the listing, and exactly
      them, each once and in order, if and only if no page straddles a prefix. */
  lemma {:induction false} ChainExact(s: seq<Entry>, req: Request)
    requires Named(s, req.view) && Reached(s, req)
    ensures |Chain(s, req)| >= |Visible(s, req)|
    ensures Chain(s, req) == Visible(s, req) <==> Smooth(s, req)
    decreases |Rest(s, req)|
  {
    if Truncated(s, req) {
      NextPage(s, req);
      ChainUnfolds(s, req);
      ChainExact(s, NextRequest(s, req));
      Splice(Visible(s, req), PageSize(s, req), Chain(s, NextRequest(s, req)));
    }
  }

  // ----- which listings every chain gets right -----

  /** Two entries share a common prefix that is not that of the last entry. */
  ghost predicate Shared(items: seq<ObjectInfo>, v: View) {
    exists i, j :: 0 <= i < j < |items| && Alike(items, v, i, j)
  }

  predicate Alike(items: seq<ObjectInfo>, v: View, i: nat, j: nat)
    requires i < j < |items|
  {
    PathOf(v, items[i]).Some? && PathOf(v, items[i]) == PathOf(v, items[j]) != PathOf(v, items[|items| - 1])
  }

  /** What lies between two entries with one common prefix has it too. */
  lemma SharedByAllBetween(items: seq<ObjectInfo>, v: View, i: nat, k: nat, j: nat)
    requires Listed(items) && i <= k <= j < |items|
    requires PathOf(v, items[i]).Some? && PathOf(v, items[i]) == PathOf(v, items[j])
    ensures PathOf(v, items[k]) == PathOf(v, items[i])
  {
    if i < k < j {
      assert Before(items[i], items[k]) && Before(items[k], items[j]);
      var a, b, c, d := items[i].key, items[k].key, items[j].key, PathOf(v, items[i]).value;
      LessIrreflexive(a);
      LessIrreflexive(b);
      if Less(a, b) { LessAsymmetric(a, b); }
      if Less(b, c) { LessAsymmetric(b, c); }
      PrefixIsConvex(d, a, b, c);
      ObjectListing.RollUpIsShared(v, b, a);
    }
  }

  lemma SharedInFront(items: seq<ObjectInfo>, v: View, n: nat)
    requires n < |items| && Shared(items[n..], v)
    ensures Shared(items, v)
  {
    var rest := items[n..];
    var i, j :| 0 <= i < j < |rest| && Alike(rest, v, i, j);
    assert rest[i] == items[n + i] && rest[j] == items[n + j] && rest[|rest| - 1] == items[|items| - 1];
    assert Alike(items, v, n + i, n + j);
  }

  lemma {:induction false} AllSeen(items: seq<ObjectInfo>, v: View, seen: set<Key>)
    requires forall k :: 0 <= k < |items| ==> PathOf(v, items[k]).Some? && PathOf(v, items[k]).value in seen
    ensures Lines(items, v, seen) == []
  {
    if items != [] {
      assert forall k :: 0 <= k < |items[1..]| ==> items[1..][k] == items[k + 1];
      AllSeen(items[1..], v, seen);
    }
  }

  /** Behind an entry that has the last entry's prefix no new line comes. */
  lemma NothingNewBehind(items: seq<ObjectInfo>, v: View, j: nat, n: nat, seen: set<Key>)
    requires Listed(items) && j < n <= |items| && PathOf(v, items[j]).Some?
    requires PathOf(v, items[|items| - 1]) == PathOf(v, items[j]) && PathOf(v, items[j]).value in seen
    ensures Lines(items[n..], v, seen) == []
  {
    forall m | 0 <= m < |items| - n ensures PathOf(v, items[n..][m]) == PathOf(v, items[j]) {
      SharedByAllBetween(items, v, j, n + m, |items| - 1);
      assert items[n..][m] == items[n + m];
    }
    AllSeen(items[n..], v, seen);
  }

  /** A page that straddles a prefix has entries that share it, and others behind. */
  lemma StraddlingIsShared(items: seq<ObjectInfo>, v: View, n: nat, i: nat, shown: set<Key>)
    requires Listed(items) && 0 < n <= |Lines(items, v, {})| && i == CutAt(items, v, {}, n)
    requires shown == PathSet(Lines(items, v, {}), n) && Lines(items[i + 1..], v, shown) != []
    requires Repeats(items[i + 1..], v, shown)
    ensures Shared(items, v)
  {
    var rest := items[i + 1..];
    var k :| 0 <= k < |rest| && PathOf(v, rest[k]).Some? && PathOf(v, rest[k]).value in shown;
    var d := PathOf(v, rest[k]).value;
    PathsUpToCut(items, v, {}, n, d);
    var j :| 0 <= j <= i && PathOf(v, items[j]) == Some(d);
    if PathOf(v, items[|items| - 1]) == Some(d) {
      NothingNewBehind(items, v, j, i + 1, shown);
    }
    SharedAt(items, v, j, i + 1, k);
  }

  lemma SharedAt(items: seq<ObjectInfo>, v: View, j: nat, n: nat, k: nat)
    requires j < n <= |items| && k < |items[n..]| && PathOf(v, items[j]).Some?
    requires PathOf(v, items[j]) == PathOf(v, items[n..][k]) != PathOf(v, items[|items| - 1])
    ensures Shared(items, v)
  {
    assert items[n..][k] == items[n + k];
    assert Alike(items, v, j, n + k);
  }

  lemma RestIsListed(s: seq<Entry>, req: Request)
    requires Named(s, req.view) && Reached(s, req)
    ensures Listed(Rest(s, req))
  {
    FlatIsListed(s, req.view, Seek(s, BucketPrefix(req.view.bucket) + req.view.prefix));
  }

  /** Where the next page starts. */
  lemma NextRestIs(s: seq<Entry>, req: Request) returns (i: nat)
    requires Named(s, req.view) && Reached(s, req) && Truncated(s, req)
    ensures i == CutAt(Rest(s, req), req.view, {}, PageSize(s, req))
    ensures Rest(s, NextRequest(s, req)) == Rest(s, req)[i + 1..]
    ensures Lines(Rest(s, req)[i + 1..], req.view, PathSet(Visible(s, req), PageSize(s, req))) != []
  {
    i := CutAll(Rest(s, req), req.view, PageSize(s, req));
    RestBehind(s, req, i);
  }

  lemma NotSharedStep(s: seq<Entry>, req: Request)
    requires Named(s, req.view) && Reached(s, req) && Truncated(s, req) && !Shared(Rest(s, req), req.view)
    ensures !Straddles(s, req) && !Shared(Rest(s, NextRequest(s, req)), req.view)
  {
    var i := NextRestIs(s, req);
    RestIsListed(s, req);
    if Straddles(s, req) {
      StraddlingIsShared(Rest(s, req), req.view, PageSize(s, req), i, PathSet(Visible(s, req), PageSize(s, req)));
    }
    if Shared(Rest(s, NextRequest(s, req)), req.view) {
      SharedInFront(Rest(s, req), req.view, i + 1);
    }
  }

  lemma {:induction false} NotSharedIsSmooth(s: seq<Entry>, req: Request)
    requires Named(s, req.view) && Reached(s, req) && !Shared(Rest(s, req), req.view)
    ensures Smooth(s, req)
    decreases |Rest(s, req)|
  {
    if Truncated(s, req) {
      NotSharedStep(s, req);
      ChainUnfolds(s, req);
      NextPage(s, req);
      NotSharedIsSmooth(s, NextRequest(s, req));
    }
  }

  /** Entries that share a prefix with others behind them make more than one line. */
  lemma SharedIsTwoLines(items: seq<ObjectInfo>, v: View, i: nat, j: nat)
    requires i < j < |items| && Alike(items, v, i, j)
    ensures |Lines(items, v, {})| > 1 && CutAt(items, v, {}, 1) == 0
    ensures PathSet(Lines(items, v, {}), 1) == if PathOf(v, items[0]).Some? then {PathOf(v, items[0]).value} else {}
  {
    var path := PathOf(v, items[0]);
    var now := if path.Some? then {path.value} else {};
    var first := if path.Some? then Prefix(path.value, items[0]) else Version(items[0]);
    assert {} + now == now;
    assert Lines(items, v, {}) == [first] + Lines(items[1..], v, now);
    PathSetCons(first, Lines(items[1..], v, now), 1);
    var k := if PathOf(v, items[|items| - 1]) == path && path.Some? then i else |items| - 1;
    NewPathIsShown(items[1..], v, now, k - 1);
  }

  /** An entry whose common prefix, if any, was not shown yet leaves a line. */
  lemma {:induction false} NewPathIsShown(items: seq<ObjectInfo>, v: View, seen: set<Key>, k: nat)
    requires k < |items| && (PathOf(v, items[k]).Some? ==> PathOf(v, items[k]).value !in seen)
    ensures Lines(items, v, seen) != []
  {
    if k > 0 {
      NewPathIsShown(items[1..], v, seen, k - 1);
    }
  }

  /** Cutting the first entry off either separates entries that share a prefix, or
      leaves such entries behind it. */
  lemma SharedBehindFirst(items: seq<ObjectInfo>, v: View)
    requires Shared(items, v)
    ensures |Lines(items, v, {})| > 1 && CutAt(items, v, {}, 1) == 0
    ensures Repeats(items[1..], v, PathSet(Lines(items, v, {}), 1)) || Shared(items[1..], v)
  {
    var i, j :| 0 <= i < j < |items| && Alike(items, v, i, j);
    SharedIsTwoLines(items, v, i, j);
    if i == 0 {
      assert items[1..][j - 1] == items[j];
    } else {
      assert Alike(items[1..], v, i - 1, j - 1);
    }
  }

  lemma SharedStep(s: seq<Entry>, req: Request)
    requires Named(s, req.view) && Reached(s, req) && req.maxKeys == 1 && Shared(Rest(s, req), req.view)
    ensures Truncated(s, req) && (Straddles(s, req) || Shared(Rest(s, NextRequest(s, req)), req.view))
  {
    SharedBehindFirst(Rest(s, req), req.view);
    var cut := NextRestIs(s, req);
  }

  lemma {:induction false} SharedIsNotSmooth(s: seq<Entry>, req: Request)
    requires Named(s, req.view) && Reached(s, req) && req.maxKeys == 1 && Shared(Rest(s, req), req.view)
    ensures !Smooth(s, req)
    decreases |Rest(s, req)|
  {
    SharedStep(s, req);
    ChainUnfolds(s, req);
    NextPage(s, req);
    if !Straddles(s, req) {
      SharedIsNotSmooth(s, NextRequest(s, req));
    }
  }

  function WithLimit(req: Request, m: int): Request {
    req.(maxKeys := m)
  }

  /** Whatever MaxKeys is, following the markers yields every line exactly once in
      order; this holds for all page sizes if and only if no two entries share a
      common prefix that the last entry does not have. */
  lemma ChainCompleteForAllPageSizes(s: seq<Entry>, req: Request)
    requires Named(s, req.view) && Reached(s, req)
    ensures forall m :: Reached(s, WithLimit(req, m))
    ensures (forall m :: Chain(s, WithLimit(req, m)) == Visible(s, req)) <==> !Shared(Rest(s, req), req.view)
  {
    forall m ensures Reached(s, WithLimit(req, m)) {
      AnyLimit(s, req, m);
    }
    if Shared(Rest(s, req), req.view) {
      AnyLimit(s, req, 1);
      SharedIsNotSmooth(s, WithLimit(req, 1));
      ChainExact(s, WithLimit(req, 1));
    } else {
      forall m ensures Chain(s, WithLimit(req, m)) == Visible(s, req) {
        AnyLimit(s, req, m);
        NotSharedIsSmooth(s, WithLimit(req, m));
        ChainExact(s, WithLimit(req, m));
      }
    }
  }

  lemma AnyLimit(s: seq<Entry>, req: Request, m: int)
    requires Reached(s, req)
    ensures Rest(s, WithLimit(req, m)) == Rest(s, req) && Visible(s, WithLimit(req, m)) == Visible(s, req)
    ensures Reached(s, WithLimit(req, m))
  {
    SameMarkers(Flat(s, req.view, Start(s, req)), req, WithLimit(req, m));
  }

  lemma {:induction false} SameMarkers(items: seq<ObjectInfo>, a: Request, b: Request)
    requires a.keyMarker == b.keyMarker && a.versionIdMarker == b.versionIdMarker
    ensures Behind(items, a) == Behind(items, b)
  {
    if items != [] {
      SameMarkers(items[1..], a, b);
    }
  }

  function AsLines(items: seq<ObjectInfo>): seq<Line> {
    seq(|items|, i requires 0 <= i < |items| => Version(items[i]))
  }

  lemma AsLinesSlice(items: seq<ObjectInfo>, a: nat, b: nat)
    requires a <= b <= |items|
    ensures AsLines(items)[a..b] == AsLines(items[a..b])
  {
  }

  lemma {:induction false} PlainLines(items: seq<ObjectInfo>, v: View)
    requires v.delimiter == []
    ensures Lines(items, v, {}) == AsLines(items)
  {
    if items != [] {
      PlainLines(items[1..], v);
    }
  }

  lemma {:induction false} PlainIsSmooth(s: seq<Entry>, req: Request)
    requires Named(s, req.view) && Reached(s, req) && req.view.delimiter == []
    ensures Smooth(s, req)
    decreases |Rest(s, req)|
  {
    if Truncated(s, req) {
      NextPage(s, req);
      ChainUnfolds(s, req);
      PlainIsSmooth(s, NextRequest(s, req));
    }
  }

  /** Without a delimiter, whatever MaxKeys is, following the markers lists every
      version of every key with the prefix exactly once, in order. */
  lemma PlainChainIsComplete(s: seq<Entry>, req: Request)
    requires Named(s, req.view) && req.keyMarker == [] && req.view.delimiter == []
    ensures Reached(s, req)
    ensures Chain(s, req) == AsLines(AllItems(s, req.view))
  {
    FirstPageReached(s, req);
    PlainIsSmooth(s, req);
    ChainExact(s, req);
    PlainLines(AllItems(s, req.view), req.view);
  }

  // ----- what the lines of a listing are -----

  /** The entry at `i` is the first that rolls up to `d`. */
  predicate FirstOf(items: seq<ObjectInfo>, v: View, d: Key, i: nat) {
    i < |items| && PathOf(v, items[i]) == Some(d) && forall j :: 0 <= j < i ==> PathOf(v, items[j]) != Some(d)
  }

  ghost predicate FirstIs(items: seq<ObjectInfo>, v: View, d: Key, x: ObjectInfo) {
    exists i: nat :: FirstOf(items, v, d, i) && items[i] == x
  }

  lemma {:induction false} LineOf(items: seq<ObjectInfo>, v: View, seen: set<Key>, x: ObjectInfo, d: Key)
    ensures Version(x) in Lines(items, v, seen) <==> x in items && PathOf(v, x).None?
    ensures Prefix(d, x) in Lines(items, v, seen) <==> d !in seen && FirstIs(items, v, d, x)
    decreases |items|
  {
    if items != [] {
      var path, rest := PathOf(v, items[0]), items[1..];
      FirstOfRest(items, v, d, x);
      if path.None? || path.value in seen {
        LineOf(rest, v, seen, x, d);
      } else {
        LineOf(rest, v, seen + {path.value}, x, d);
      }
    }
  }

  lemma FirstOfRest(items: seq<ObjectInfo>, v: View, d: Key, x: ObjectInfo)
    requires items != []
    ensures FirstIs(items, v, d, x) <==>
            if PathOf(v, items[0]) == Some(d) then x == items[0] else FirstIs(items[1..], v, d, x)
  {
    if PathOf(v, items[0]) == Some(d) {
      assert FirstOf(items, v, d, 0);
    } else {
      if i: nat :| FirstOf(items, v, d, i) && items[i] == x {
        assert forall j :: 0 <= j < i - 1 ==> items[1..][j] == items[j + 1];
        assert FirstOf(items[1..], v, d, i - 1);
      }
      if i: nat :| FirstOf(items[1..], v, d, i) && items[1..][i] == x {
        assert forall j :: 0 < j < i + 1 ==> items[j] == items[1..][j - 1];
        assert FirstOf(items, v, d, i + 1);
      }
    }
  }

  /** An entry rolls up as `ObjectListing.GroupsUnder` says. */
  lemma PathMeans(v: View, x: ObjectInfo, d: Key)
    requires v.prefix <= x.key
    ensures PathOf(v, x) == Some(d) <==> ObjectListing.GroupsUnder(v, x.key, d)
    ensures PathOf(v, x).None? <==> !ObjectListing.Grouped(v, x.key)
  {
    ObjectListing.RollUpMeans(v, x.key);
    assert PathOf(v, x) == Some(d) <==> ObjectListing.RollUp(v, x.key) == (true, d);
  }

  /** `x` is the first entry under `d`. */
  ghost predicate FirstUnder(items: seq<ObjectInfo>, v: View, d: Key, x: ObjectInfo) {
    exists i: nat :: i < |items| && items[i] == x && OpensGroup(items, v, d, i)
  }

  ghost predicate OpensGroup(items: seq<ObjectInfo>, v: View, d: Key, i: nat)
    requires i < |items|
  {
    && ObjectListing.GroupsUnder(v, items[i].key, d)
    && forall j :: 0 <= j < i ==> !ObjectListing.GroupsUnder(v, items[j].key, d)
  }

  /** An entry without delimiter behind the prefix has a line of its own; of those that
      share the shortest prefix ending in a delimiter there, the first gives the line. */
  lemma LinesMean(items: seq<ObjectInfo>, v: View, x: ObjectInfo, d: Key)
    requires forall y :: y in items ==> v.prefix <= y.key
    ensures Version(x) in Lines(items, v, {}) <==> x in items && !ObjectListing.Grouped(v, x.key)
    ensures Prefix(d, x) in Lines(items, v, {}) <==> FirstUnder(items, v, d, x)
  {
    LineOf(items, v, {}, x, d);
    if x in items {
      PathMeans(v, x, d);
    }
    forall j | 0 <= j < |items|
      ensures PathOf(v, items[j]) == Some(d) <==> ObjectListing.GroupsUnder(v, items[j].key, d)
    {
      assert items[j] in items;
      PathMeans(v, items[j], d);
    }
    if i: nat :| FirstOf(items, v, d, i) && items[i] == x {
      assert OpensGroup(items, v, d, i);
    }
    if i: nat :| i < |items| && items[i] == x && OpensGroup(items, v, d, i) {
      assert FirstOf(items, v, d, i);
    }
  }

  lemma {:induction false} LineComesFrom(items: seq<ObjectInfo>, v: View, seen: set<Key>, line: Line)
    requires line in Lines(items, v, seen)
    ensures line.info in items
    decreases |items|
  {
    var path := PathOf(v, items[0]);
    if path.Some? && path.value in seen {
      LineComesFrom(items[1..], v, seen, line);
    } else if line in Lines(items[1..], v, if path.Some? then seen + {path.value} else seen) {
      LineComesFrom(items[1..], v, if path.Some? then seen + {path.value} else seen, line);
    }
  }

  ghost predicate LinesInOrder(lines: seq<Line>) {
    forall m, n :: 0 <= m < n < |lines| ==> Before(lines[m].info, lines[n].info)
  }

  /** The lines keep the order of their entries. */
  lemma {:induction false} LinesAreInOrder(items: seq<ObjectInfo>, v: View, seen: set<Key>)
    requires Listed(items)
    ensures LinesInOrder(Lines(items, v, seen))
    decreases |items|
  {
    if items != [] {
      var path := PathOf(v, items[0]);
      var now := if path.Some? then seen + {path.value} else seen;
      LinesAreInOrder(items[1..], v, now);
      var rest := Lines(items[1..], v, now);
      forall n | 0 <= n < |rest| ensures Before(items[0], rest[n].info) {
        LineComesFrom(items[1..], v, now, rest[n]);
        var j :| 0 <= j < |items[1..]| && items[1..][j] == rest[n].info;
        assert items[j + 1] == rest[n].info;
      }
      assert path.Some? && path.value in seen ==> now == seen;
    }
  }

  // ----- what is on a page -----

  /** How many lines fit on a page. */
  function MaxLines(maxKeys: int): nat {
    if maxKeys > 0 then maxKeys else 1000
  }

  /** The page shows the first `n` of the lines. */
  ghost predicate Holds(page: Page, lines: seq<Line>, n: nat) {
    && n <= |lines| && n == |page.versions| + |page.deleteMarkers| + |page.commonPrefixes|
    && (forall x :: x in page.versions <==> Version(x) in lines[..n] && !x.isDeleteMarker)
    && (forall x :: x in page.deleteMarkers <==> Version(x) in lines[..n] && x.isDeleteMarker)
    && (forall d :: d in page.commonPrefixes <==> exists x :: Prefix(d, x) in lines[..n])
    && Listed(page.versions) && Listed(page.deleteMarkers)
    && (page.isTruncated <==> n < |lines|)
    && page.next == if page.isTruncated && n > 0 then Some(lines[n - 1].info) else None
  }

  lemma {:induction false} VersionsAre(lines: seq<Line>, n: nat, markers: bool)
    requires n <= |lines| && LinesInOrder(lines)
    ensures forall x :: x in VersionsIn(lines, n, markers) <==> Version(x) in lines[..n] && x.isDeleteMarker == markers
    ensures Listed(VersionsIn(lines, n, markers))
  {
    if n > 0 {
      VersionsAre(lines, n - 1, markers);
      assert lines[..n] == lines[..n - 1] + [lines[n - 1]];
      var before := VersionsIn(lines, n - 1, markers);
      forall i | 0 <= i < |before| ensures Before(before[i], lines[n - 1].info) {
        assert before[i] in before;
        var m :| 0 <= m < n - 1 && lines[..n - 1][m] == Version(before[i]);
        assert Before(lines[m].info, lines[n - 1].info);
      }
    }
  }

  lemma {:induction false} PathsAre(lines: seq<Line>, n: nat)
    requires n <= |lines|
    ensures forall d :: d in PathsIn(lines, n) <==> exists x :: Prefix(d, x) in lines[..n]
    ensures |VersionsIn(lines, n, false)| + |VersionsIn(lines, n, true)| + |PathsIn(lines, n)| == n
  {
    if n > 0 {
      PathsAre(lines, n - 1);
      assert lines[..n] == lines[..n - 1] + [lines[n - 1]];
      assert lines[n - 1] in lines[..n];
    }
  }

  /** A page holds the first MaxKeys lines of what follows the markers, versions and
      delete markers apart, and the entry of its last line if there are more. */
  lemma PageHoldsLines(s: seq<Entry>, req: Request)
    requires Pageable(s, req.view) && Reached(s, req)
    ensures Visible(s, req) == Lines(Rest(s, req), req.view, {})
    ensures Holds(PageOf(s, req), Visible(s, req),
                  if |Visible(s, req)| < MaxLines(req.maxKeys) then |Visible(s, req)| else MaxLines(req.maxKeys))
  {
    var lines, n := Visible(s, req), PageSize(s, req);
    FlatIsListed(s, req.view, Seek(s, BucketPrefix(req.view.bucket) + req.view.prefix));
    LinesAreInOrder(Rest(s, req), req.view, {});
    VersionsAre(lines, n, false);
    VersionsAre(lines, n, true);
    PathsAre(lines, n);
  }

  // ----- a page that straddles a prefix -----

  lemma SingleGroup(s: seq<Entry>, v: View, pos: nat)
    requires Continues(s, v, pos)
    requires pos + 1 < |s| ==> !InGroup(v.bucket, KeyPart(v.bucket, s[pos].raw), s[pos + 1])
    ensures Flat(s, v, pos) == [s[pos].info] + Flat(s, v, pos + 1)
  {
    var key := KeyPart(v.bucket, s[pos].raw);
    assert GroupEnd(s, v.bucket, key, pos) == GroupEnd(s, v.bucket, key, pos + 1) == pos + 1;
    assert Gathered(s, pos, pos) == [];
    assert Gathered(s, pos, pos + 1) == [s[pos].info];
    assert NewestFirst([]) == [];
    assert [s[pos].info][..0] == [];
    assert NewestFirst([s[pos].info]) == [s[pos].info];
  }

  function Folder(): Key {
    [97, 47]
  }

  function ExampleKey(i: nat): (k: Key)
    ensures 0 !in k
  {
    if i == 0 then [97, 47, 120] else if i == 1 then [97, 47, 121] else [98]
  }

  function ExampleInfo(i: nat): ObjectInfo {
    ObjectInfo(ExampleKey(i), [], i, true, false, [], 0)
  }

  function ExampleEntry(bucket: Key, i: nat): Entry {
    Entry(PointerKey(bucket, ExampleKey(i)), ExampleInfo(i))
  }

  /** A bucket with the objects "a/x", "a/y" and "b". */
  function Example(bucket: Key): seq<Entry> {
    [ExampleEntry(bucket, 0), ExampleEntry(bucket, 1), ExampleEntry(bucket, 2)]
  }

  function ExampleRequest(bucket: Key): Request {
    Request(ObjectListing.View(bucket, [], [47]), 1, [], [])
  }

  lemma ExampleKeyParts(bucket: Key, i: nat)
    requires i < 3
    ensures InBucket(bucket, Example(bucket)[i]) && KeyPart(bucket, Example(bucket)[i].raw) == ExampleKey(i)
  {
    PointerPart(bucket, ExampleKey(i));
  }

  lemma ExampleIsSorted(bucket: Key)
    ensures Sorted(Example(bucket)) && Consistent(Example(bucket), bucket)
    ensures forall i :: 0 <= i < 3 ==>
              InBucket(bucket, Example(bucket)[i]) && KeyPart(bucket, Example(bucket)[i].raw) == ExampleKey(i)
  {
    forall i | 0 <= i < 3
        ensures InBucket(bucket, Example(bucket)[i]) && KeyPart(bucket, Example(bucket)[i].raw) == ExampleKey(i) {
      ExampleKeyParts(bucket, i);
    }
    ExampleOrder(bucket, 0, 1);
    ExampleOrder(bucket, 0, 2);
    ExampleOrder(bucket, 1, 2);
  }

  lemma ExampleOrder(bucket: Key, i: nat, j: nat)
    requires i < j < 3
    ensures Less(Example(bucket)[i].raw, Example(bucket)[j].raw)
  {
    PrefixCancels(BucketPrefix(bucket), ExampleKey(i), ExampleKey(j));
  }

  function ExampleInfos(): seq<ObjectInfo> {
    [ExampleInfo(0), ExampleInfo(1), ExampleInfo(2)]
  }

  lemma ExampleStart(bucket: Key)
    ensures Seek(Example(bucket), BucketPrefix(bucket) + []) == 0
  {
    assert BucketPrefix(bucket) + [] == BucketPrefix(bucket);
    PrefixNotAbove(BucketPrefix(bucket), Example(bucket)[0].raw);
  }

  lemma ExampleStep(bucket: Key, i: nat, next: nat)
    requires i < 3 && next == i + 1
    ensures var (s, v) := (Example(bucket), ExampleRequest(bucket).view);
            Flat(s, v, i) == [ExampleInfo(i)] + Flat(s, v, next)
  {
    ExampleKeyParts(bucket, i);
    if next < 3 {
      ExampleKeyParts(bucket, next);
    }
    SingleGroup(Example(bucket), ExampleRequest(bucket).view, i);
  }

  lemma ExampleFlat(bucket: Key)
    ensures Flat(Example(bucket), ExampleRequest(bucket).view, 0) == ExampleInfos()
  {
    ExampleStep(bucket, 0, 1);
    ExampleStep(bucket, 1, 2);
    ExampleStep(bucket, 2, 3);
    assert Flat(Example(bucket), ExampleRequest(bucket).view, 3) == [];
  }

  lemma ExampleItems(bucket: Key)
    ensures AllItems(Example(bucket), ExampleRequest(bucket).view) == ExampleInfos()
    ensures Named(Example(bucket), ExampleRequest(bucket).view)
  {
    ExampleStart(bucket);
    ExampleFlat(bucket);
    ExampleIsSorted(bucket);
    ExampleIsMarkable(AllItems(Example(bucket), ExampleRequest(bucket).view));
  }

  lemma ExampleIsMarkable(all: seq<ObjectInfo>)
    requires all == ExampleInfos()
    ensures Markable(all) && forall x :: x in all ==> x.key != []
  {
    assert forall i :: 0 <= i < 3 ==> all[i].key == ExampleKey(i);
  }

  lemma ExamplePaths(bucket: Key, x: ObjectInfo, i: nat)
    requires x.key == ExampleKey(i)
    ensures PathOf(ExampleRequest(bucket).view, x) == if i <= 1 then Some(Folder()) else None
  {
    var k := x.key;
    assert k[0..] == k;
    assert k[0..1] == [k[0]];
    if i <= 1 {
      assert k[1..2] == [47];
      IndexFromIsFirst(k, [47], 0);
      assert IndexOf(k, [47]) == 1;
      assert [] + k[..2] == Folder();
    }
  }

  /** With a delimiter the defect is real: one line a page shows "a/" twice. */
  lemma PrefixComesTwice(bucket: Key)
    ensures var (s, req) := (Example(bucket), ExampleRequest(bucket));
            Named(s, req.view) && Reached(s, req) && Chain(s, req) != Visible(s, req)
  {
    var s, req := Example(bucket), ExampleRequest(bucket);
    ExampleItems(bucket);
    FirstPageReached(s, req);
    ExampleIsShared(bucket, Rest(s, req));
    SharedIsNotSmooth(s, req);
    ChainExact(s, req);
  }

  lemma ExampleIsShared(bucket: Key, all: seq<ObjectInfo>)
    requires all == ExampleInfos()
    ensures Shared(all, ExampleRequest(bucket).view)
  {
    ExamplePaths(bucket, all[0], 0);
    ExamplePaths(bucket, all[1], 1);
    ExamplePaths(bucket, all[2], 2);
    assert Alike(all, ExampleRequest(bucket).view, 0, 1);
  }

  lemma PointerPart(bucket: Key, key: Key)
    requires 0 !in key
    ensures BucketPrefix(bucket) <= PointerKey(bucket, key) && KeyPart(bucket, PointerKey(bucket, key)) == key
  {
    FirstPartOfKey(key);
    assert PointerKey(bucket, key)[|bucket| + 1..] == key;
  }

  /** Behind the key marker "a", which names nothing there, that bucket seems empty. */
  lemma UnknownMarkerHidesAll(bucket: Key) returns (s: seq<Entry>, req: Request)
    ensures Pageable(s, req.view) && |AllItems(s, req.view)| == 3 && req.keyMarker == [97] && req.versionIdMarker == []
    ensures PageOf(s, req) == Page([], [], [], false, None)
  {
    s, req := Example(bucket), ExampleRequest(bucket).(keyMarker := [97]);
    ExampleItems(bucket);
    ExampleMarksNothing(req, AllItems(s, req.view));
    UnknownMarkersEndTheListing(s, req);
  }

  lemma ExampleMarksNothing(req: Request, all: seq<ObjectInfo>)
    requires all == ExampleInfos() && req.keyMarker == [97]
    ensures forall k :: 0 <= k < |all| ==> !IsMarker(req, all[k])
  {
    assert forall k :: 0 <= k < 3 ==> all[k].key == ExampleKey(k) != [97];
  }
}
