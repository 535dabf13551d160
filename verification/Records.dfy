/** Object records and the ordered key-value bucket (bbolt) that stores them. */
module Records {
  import opened Keys
  import opened Sequences

  /** The metadata of one version of one object. Times are nanosecond counts. */
  datatype ObjectInfo = ObjectInfo(
    key: Key,
    versionId: Key,
    lastModified: int,
    isLatest: bool,
    isDeleteMarker: bool,
    etag: Key,
    size: nat)

  datatype Entry = Entry(raw: Key, info: ObjectInfo)

  function BucketPrefix(bucket: Key): Key {
    bucket + [0]
  }

  /** The "latest pointer" key of an object. */
  function PointerKey(bucket: Key, key: Key): Key {
    BucketPrefix(bucket) + key
  }

  /** The key of one historical version record. */
  function VersionKey(bucket: Key, key: Key, versionId: Key): Key {
    BucketPrefix(bucket) + key + [0] + versionId
  }

  predicate InBucket(bucket: Key, e: Entry) {
    BucketPrefix(bucket) <= e.raw
  }

  /** What stands before the first 0x00, or everything. */
  function FirstPart(rest: Key): Key {
    if rest == [] || rest[0] == 0 then [] else [rest[0]] + FirstPart(rest[1..])
  }

  lemma {:induction false} FirstPartMeans(rest: Key)
    ensures var k := FirstPart(rest); 0 !in k && k <= rest && (|rest| > |k| ==> rest[|k|] == 0)
  {
    if rest != [] && rest[0] != 0 {
      FirstPartMeans(rest[1..]);
    }
  }

  /** The entries of a bbolt bucket in cursor order. */
  predicate Sorted(s: seq<Entry>) {
    forall i, j :: 0 <= i < j < |s| ==> Less(s[i].raw, s[j].raw)
  }

  /** The same, neighbour by neighbour. */
  predicate Ordered(s: seq<Entry>) {
    |s| > 1 ==> Less(s[0].raw, s[1].raw) && Ordered(s[1..])
  }

  lemma {:induction false} OrderedIsSorted(s: seq<Entry>)
    ensures Ordered(s) <==> Sorted(s)
  {
    if |s| > 1 {
      OrderedIsSorted(s[1..]);
      forall j | Ordered(s) && 1 < j < |s| ensures Less(s[0].raw, s[j].raw) {
        assert s[1..][0] == s[1] && s[1..][j - 1] == s[j];
        LessTransitive(s[0].raw, s[1].raw, s[j].raw);
      }
      forall i, j | Ordered(s) && 0 < i < j < |s| ensures Less(s[i].raw, s[j].raw) {
        assert s[1..][i - 1] == s[i] && s[1..][j - 1] == s[j];
      }
    }
  }

  /** `Cursor.Seek`: the first position whose key is not below `k`. */
  function Seek(s: seq<Entry>, k: Key): (pos: nat)
    ensures pos <= |s|
  {
    SeekFrom(s, k, 0)
  }

  function SeekFrom(s: seq<Entry>, k: Key, from: nat): (pos: nat)
    ensures from <= |s| ==> from <= pos <= |s|
    ensures from > |s| ==> pos == 0
    decreases |s| - from
  {
    if from > |s| then 0
    else if from < |s| && Less(s[from].raw, k) then SeekFrom(s, k, from + 1)
    else from
  }

  /** In a sorted bucket the seek position splits the keys at `k`. */
  lemma SeekSplits(s: seq<Entry>, k: Key)
    requires Sorted(s)
    ensures forall i :: 0 <= i < |s| ==> (i < Seek(s, k) <==> Less(s[i].raw, k))
  {
    SeekFromSplits(s, k, 0);
  }

  lemma {:induction false} SeekFromSplits(s: seq<Entry>, k: Key, from: nat)
    requires Sorted(s) && from <= |s|
    requires forall i :: 0 <= i < from ==> Less(s[i].raw, k)
    ensures forall i :: 0 <= i < |s| ==> (i < SeekFrom(s, k, from) <==> Less(s[i].raw, k))
    decreases |s| - from
  {
    if from < |s| {
      if Less(s[from].raw, k) {
        SeekFromSplits(s, k, from + 1);
      } else {
        forall i | from < i < |s| ensures !Less(s[i].raw, k) {
          if Less(s[i].raw, k) {
            LessTransitive(s[from].raw, s[i].raw, k);
          }
        }
      }
    }
  }

  // ----- point access -----

  datatype Option<T> = None | Some(value: T)

  /** `Bucket.Get`. */
  function Get(s: seq<Entry>, k: Key): Option<ObjectInfo> {
    var p := Seek(s, k);
    if p < |s| && s[p].raw == k then Some(s[p].info) else None
  }

  /** `Bucket.Put`. */
  function Put(s: seq<Entry>, k: Key, info: ObjectInfo): seq<Entry> {
    var p := Seek(s, k);
    if p < |s| && s[p].raw == k then s[p := Entry(k, info)] else s[..p] + [Entry(k, info)] + s[p..]
  }

  /** `Bucket.Delete`. */
  function Delete(s: seq<Entry>, k: Key): seq<Entry> {
    var p := Seek(s, k);
    if p < |s| && s[p].raw == k then s[..p] + s[p + 1..] else s
  }

  /** A key sits at its seek position or nowhere. */
  lemma FoundAtSeek(s: seq<Entry>, k: Key, i: nat)
    requires Sorted(s) && i < |s| && s[i].raw == k
    ensures i == Seek(s, k)
  {
    SeekSplits(s, k);
    LessIrreflexive(k);
    assert forall q :: 0 <= q < i ==> Less(s[q].raw, k);
    assert Seek(s, k) <= i && !Less(s[Seek(s, k)].raw, k);
  }

  lemma GetMeans(s: seq<Entry>, k: Key)
    requires Sorted(s)
    ensures forall i :: 0 <= i < |s| && s[i].raw == k ==> Get(s, k) == Some(s[i].info)
    ensures Get(s, k).Some? ==> Entry(k, Get(s, k).value) in s
  {
    forall i | 0 <= i < |s| && s[i].raw == k ensures i == Seek(s, k) {
      FoundAtSeek(s, k, i);
    }
    if Get(s, k).Some? {
      assert s[Seek(s, k)] == Entry(k, Get(s, k).value);
    }
  }

  /** Membership determines what `Get` finds. */
  lemma GetBy(s: seq<Entry>, k: Key, o: Option<ObjectInfo>)
    requires Sorted(s)
    requires o.Some? ==> Entry(k, o.value) in s
    requires o.None? ==> forall e :: e in s ==> e.raw != k
    ensures Get(s, k) == o
  {
    GetMeans(s, k);
    if o.Some? {
      var i :| 0 <= i < |s| && s[i] == Entry(k, o.value);
    }
  }

  lemma PutKeepsOrder(s: seq<Entry>, k: Key, info: ObjectInfo)
    requires Sorted(s)
    ensures Sorted(Put(s, k, info))
    ensures forall e :: e in Put(s, k, info) <==> e == Entry(k, info) || (e in s && e.raw != k)
  {
    var p := Seek(s, k);
    forall i | 0 <= i < |s| ensures s[i].raw == k ==> i == p {
      if s[i].raw == k { FoundAtSeek(s, k, i); }
    }
    if p < |s| && s[p].raw == k {
      ReplaceKeepsOrder(s, k, info, p);
    } else {
      SeekSplits(s, k);
      forall i | p <= i < |s| ensures Less(k, s[i].raw) {
        LessTotal(k, s[i].raw);
      }
      InsertKeepsOrder(s, k, info, p);
    }
  }

  lemma ReplaceKeepsOrder(s: seq<Entry>, k: Key, info: ObjectInfo, p: nat)
    requires Sorted(s) && p < |s| && s[p].raw == k
    requires forall i :: 0 <= i < |s| && s[i].raw == k ==> i == p
    ensures Sorted(s[p := Entry(k, info)])
    ensures forall e :: e in s[p := Entry(k, info)] <==> e == Entry(k, info) || (e in s && e.raw != k)
  {
    var t := s[p := Entry(k, info)];
    forall e ensures e in t <==> e == Entry(k, info) || (e in s && e.raw != k) {
      if e in s && e.raw != k {
        var i :| 0 <= i < |s| && s[i] == e;
        assert t[i] == e;
      }
      if e in t {
        var i :| 0 <= i < |t| && t[i] == e;
        assert i != p ==> s[i] == e;
      }
      assert t[p] == Entry(k, info);
    }
  }

  lemma InsertKeepsOrder(s: seq<Entry>, k: Key, info: ObjectInfo, p: nat)
    requires Sorted(s) && p <= |s|
    requires forall i :: 0 <= i < p ==> Less(s[i].raw, k)
    requires forall i :: p <= i < |s| ==> Less(k, s[i].raw)
    ensures Sorted(s[..p] + [Entry(k, info)] + s[p..])
    ensures forall e :: e in s[..p] + [Entry(k, info)] + s[p..] <==> e == Entry(k, info) || (e in s && e.raw != k)
  {
    LessIrreflexive(k);
    var t := s[..p] + [Entry(k, info)] + s[p..];
    assert forall i :: 0 <= i < |t| ==> t[i] == if i < p then s[i] else if i == p then Entry(k, info) else s[i - 1];
    forall e ensures e in t <==> e == Entry(k, info) || (e in s && e.raw != k) {
      InsertMembers(s, k, info, p, e);
    }
  }

  lemma InsertMembers(s: seq<Entry>, k: Key, info: ObjectInfo, p: nat, e: Entry)
    requires p <= |s| && forall i :: 0 <= i < |s| ==> s[i].raw != k
    ensures e in s[..p] + [Entry(k, info)] + s[p..] <==> e == Entry(k, info) || (e in s && e.raw != k)
  {
    assert s == s[..p] + s[p..];
    if e in s {
      var i :| 0 <= i < |s| && s[i] == e;
    }
  }

  lemma DeleteKeepsOrder(s: seq<Entry>, k: Key)
    requires Sorted(s)
    ensures Sorted(Delete(s, k))
    ensures forall e :: e in Delete(s, k) <==> e in s && e.raw != k
  {
    var p := Seek(s, k);
    forall i | 0 <= i < |s| && s[i].raw == k ensures i == p {
      FoundAtSeek(s, k, i);
    }
    if p < |s| && s[p].raw == k {
      CutKeepsOrder(s, p);
      forall e ensures e in s[..p] + s[p + 1..] <==> e in s && e.raw != k {
        CutMembers(s, p, e);
      }
    }
  }

  lemma CutKeepsOrder(s: seq<Entry>, p: nat)
    requires Sorted(s) && p < |s|
    ensures Sorted(s[..p] + s[p + 1..])
  {
    var t := s[..p] + s[p + 1..];
    forall i, j | 0 <= i < j < |t| ensures Less(t[i].raw, t[j].raw) {
      var m, n := if i < p then i else i + 1, if j < p then j else j + 1;
      assert t[i] == s[m] && t[j] == s[n];
    }
  }

  lemma CutMembers(s: seq<Entry>, p: nat, e: Entry)
    requires p < |s| && forall i :: 0 <= i < |s| && s[i].raw == s[p].raw ==> i == p
    ensures e in s[..p] + s[p + 1..] <==> e in s && e.raw != s[p].raw
  {
    assert s == s[..p] + [s[p]] + s[p + 1..];
    if e in s[..p] + s[p + 1..] {
      var i :| 0 <= i < |s| && i != p && s[i] == e;
    }
  }

  lemma PutThenGet(s: seq<Entry>, k: Key, info: ObjectInfo, j: Key)
    requires Sorted(s)
    ensures Get(Put(s, k, info), j) == if j == k then Some(info) else Get(s, j)
  {
    PutKeepsOrder(s, k, info);
    GetMeans(s, j);
    GetBy(Put(s, k, info), j, if j == k then Some(info) else Get(s, j)) by {
      forall e | e in s ensures Get(s, j).None? ==> e.raw != j {
        var i :| 0 <= i < |s| && s[i] == e;
      }
    }
  }

  lemma DeleteThenGet(s: seq<Entry>, k: Key, j: Key)
    requires Sorted(s)
    ensures Get(Delete(s, k), j) == if j == k then None else Get(s, j)
  {
    DeleteKeepsOrder(s, k);
    GetMeans(s, j);
    GetBy(Delete(s, k), j, if j == k then None else Get(s, j)) by {
      forall e | e in s ensures Get(s, j).None? ==> e.raw != j {
        var i :| 0 <= i < |s| && s[i] == e;
      }
    }
  }

  /** Two sorted buckets that answer every `Get` alike are the same bucket. */
  lemma {:induction false} SameGetsSameBucket(a: seq<Entry>, b: seq<Entry>)
    requires Sorted(a) && Sorted(b)
    requires forall k :: Get(a, k) == Get(b, k)
    ensures a == b
  {
    forall e ensures e in a <==> e in b {
      SameGetsMember(a, b, e);
      SameGetsMember(b, a, e);
    }
    SameMembers(a, b);
  }

  lemma SameGetsMember(a: seq<Entry>, b: seq<Entry>, e: Entry)
    requires Sorted(a) && Sorted(b) && Get(a, e.raw) == Get(b, e.raw)
    ensures e in a ==> e in b
  {
    GetMeans(a, e.raw);
    GetMeans(b, e.raw);
    if e in a {
      var i :| 0 <= i < |a| && a[i] == e;
    }
  }

  lemma {:induction false} SameMembers(a: seq<Entry>, b: seq<Entry>)
    requires Sorted(a) && Sorted(b) && forall e :: e in a <==> e in b
    ensures a == b
    decreases |a| + |b|
  {
    Inhabited(a);
    Inhabited(b);
    if a != [] {
      HeadIsLeastEntry(a, b);
      HeadIsLeastEntry(b, a);
      LessTotal(a[0].raw, b[0].raw);
      if a[0].raw == b[0].raw {
        assert a[0] in b;
        var i :| 0 <= i < |b| && b[i] == a[0];
        FoundAtSeek(b, a[0].raw, i);
        FoundAtSeek(b, a[0].raw, 0);
      } else {
        assert false;
      }
      TailOfEntries(a);
      TailOfEntries(b);
      SameMembers(a[1..], b[1..]);
      assert a == [a[0]] + a[1..] && b == [b[0]] + b[1..];
    }
  }

  lemma HeadIsLeastEntry(a: seq<Entry>, b: seq<Entry>)
    requires Sorted(a) && a != [] && b != [] && forall e :: e in b ==> e in a
    ensures !Less(b[0].raw, a[0].raw)
  {
    assert b[0] in b;
    var i :| 0 <= i < |a| && a[i] == b[0];
    LessIrreflexive(a[0].raw);
    if i > 0 { LessAsymmetric(a[0].raw, a[i].raw); }
  }

  lemma TailOfEntries(a: seq<Entry>)
    requires Sorted(a) && a != []
    ensures Sorted(a[1..])
    ensures forall e :: e in a[1..] <==> e in a && e != a[0]
  {
    LessIrreflexive(a[0].raw);
    forall e ensures e in a[1..] <==> e in a && e != a[0] {
      if e in a && e != a[0] {
        var i :| 0 <= i < |a| && a[i] == e;
        assert a[1..][i - 1] == e;
      }
      if e in a[1..] {
        var i :| 0 <= i < |a[1..]| && a[1..][i] == e;
        assert Less(a[0].raw, a[i + 1].raw);
      }
    }
  }
}
