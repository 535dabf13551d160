/** The metadata of one bucket: a "latest pointer" per object plus one history
    record per version, kept in step by `PutObjectMeta` and `DeleteObjectMeta`. */
module VersionHistory {
  import opened Keys
  import opened Records

  /** The scan prefix under which all version records of a key lie. */
  function HistoryPrefix(bucket: Key, key: Key): Key {
    PointerKey(bucket, key) + [0]
  }

  // ----- what the transactions do to the records -----

  /** Keep the records whose key does not start with `prefix`. */
  function DropPrefix(s: seq<Entry>, prefix: Key): seq<Entry> {
    if s == [] then []
    else if prefix <= s[0].raw then DropPrefix(s[1..], prefix)
    else [s[0]] + DropPrefix(s[1..], prefix)
  }

  /** `PutObjectMeta`: demote the record of the old current version, write the
      record of the new one (or clear the history of an unversioned write), move
      the pointer. */
  function PutMeta(s: seq<Entry>, bucket: Key, newInfo: ObjectInfo): seq<Entry> {
    var info := newInfo.(isLatest := true);
    var pointer := PointerKey(bucket, info.key);
    var prior := Get(s, pointer);
    var demoted :=
      if prior.Some? && prior.value.versionId != [] && prior.value.versionId != info.versionId then
        Put(s, VersionKey(bucket, prior.value.key, prior.value.versionId), prior.value.(isLatest := false))
      else s;
    var recorded :=
      if info.versionId != [] then Put(demoted, VersionKey(bucket, info.key, info.versionId), info)
      else DropPrefix(demoted, HistoryPrefix(bucket, info.key));
    Put(recorded, pointer, info)
  }

  /** `findNextNewestVersion`: the newest record of the key's history that is not
      the deleted version; the first one wins a tie. */
  function NewestFrom(s: seq<Entry>, prefix: Key, deleted: Key, i: nat, best: Option<ObjectInfo>): Option<ObjectInfo>
    decreases |s| - i
  {
    if i >= |s| || !(prefix <= s[i].raw) then best
    else
      var info := s[i].info;
      var next :=
        if info.versionId != deleted
           && (best.None? || best.value.lastModified < info.lastModified) then Some(info) else best;
      NewestFrom(s, prefix, deleted, i + 1, next)
  }

  function Newest(s: seq<Entry>, bucket: Key, key: Key, deleted: Key): Option<ObjectInfo> {
    var prefix := HistoryPrefix(bucket, key);
    NewestFrom(s, prefix, deleted, Seek(s, prefix), None)
  }

  /** `DeleteObjectMeta` for one version: remove its record; if the pointer named
      it, promote the newest remaining record or drop the pointer. */
  function DeleteVersion(s: seq<Entry>, bucket: Key, key: Key, versionId: Key): seq<Entry> {
    var removed := Delete(s, VersionKey(bucket, key, versionId));
    var pointer := PointerKey(bucket, key);
    var latest := Get(removed, pointer);
    if latest.None? || latest.value.versionId != versionId then removed
    else
      match Newest(removed, bucket, key, versionId)
      case None => Delete(removed, pointer)
      case Some(newest) =>
        var info := newest.(isLatest := true);
        var moved := Put(removed, pointer, info);
        if info.versionId != [] then Put(moved, VersionKey(bucket, key, info.versionId), info) else moved
  }

  /** `DeleteObjectMeta` without a version: pointer and history go. */
  function DeleteAll(s: seq<Entry>, bucket: Key, key: Key): seq<Entry> {
    DropPrefix(Delete(s, PointerKey(bucket, key)), HistoryPrefix(bucket, key))
  }

  function DeleteMeta(s: seq<Entry>, bucket: Key, key: Key, versionId: Key): seq<Entry> {
    if versionId != [] then DeleteVersion(s, bucket, key, versionId) else DeleteAll(s, bucket, key)
  }

  // ----- the store -----

  class MetadataStore {
    const bucket: Key
    var objects: seq<Entry>

    ghost predicate Valid()
      reads this
    {
      Ordered(objects)
    }

    constructor (bucket: Key)
      ensures Valid() && this.bucket == bucket && objects == []
    {
      this.bucket := bucket;
      objects := [];
    }

    /** `Bucket.Put` in the transaction. */
    method Write(k: Key, info: ObjectInfo)
      requires Valid()
      modifies this`objects
      ensures Valid() && objects == Put(old(objects), k, info)
    {
      OrderedIsSorted(objects);
      PutKeepsOrder(objects, k, info);
      objects := Put(objects, k, info);
      OrderedIsSorted(objects);
    }

    /** `Bucket.Delete` in the transaction. */
    method Remove(k: Key)
      requires Valid()
      modifies this`objects
      ensures Valid() && objects == Delete(old(objects), k)
    {
      OrderedIsSorted(objects);
      DeleteKeepsOrder(objects, k);
      objects := Delete(objects, k);
      OrderedIsSorted(objects);
    }

    method PutObjectMeta(newInfo: ObjectInfo)
      requires Valid()
      modifies this`objects
      ensures Valid() && objects == PutMeta(old(objects), bucket, newInfo)
    {
      var info := newInfo.(isLatest := true);
      var oldData := Get(objects, PointerKey(bucket, info.key));
      if oldData.Some? {
        var oldInfo := oldData.value;
        if oldInfo.versionId != [] && oldInfo.versionId != info.versionId {
          Write(VersionKey(bucket, oldInfo.key, oldInfo.versionId), oldInfo.(isLatest := false));
        }
      }
      if info.versionId != [] {
        Write(VersionKey(bucket, info.key, info.versionId), info);
      } else {
        DeleteVersionRecords(info.key);
      }
      Write(PointerKey(bucket, info.key), info);
    }

    /** `deleteVersionRecords`: collect the keys under the prefix, then delete them. */
    method DeleteVersionRecords(key: Key)
      requires Valid()
      modifies this`objects
      ensures Valid() && objects == DropPrefix(old(objects), HistoryPrefix(bucket, key))
    {
      var prefix := HistoryPrefix(bucket, key);
      var stale, start, end := CollectKeys(prefix);
      ghost var before := objects;
      OrderedIsSorted(before);
      var n := 0;
      while n < |stale|
        invariant 0 <= n <= |stale| && Valid() && objects == Without(before, start, n)
      {
        DeleteNext(before, start, n);
        Remove(stale[n]);
        n := n + 1;
      }
      RangeIsPrefix(before, prefix, start, end);
    }

    /** The cursor loop that copies the keys under a prefix. */
    method CollectKeys(prefix: Key) returns (stale: seq<Key>, ghost start: nat, ghost end: nat)
      ensures start == Seek(objects, prefix) <= end <= |objects| && |stale| == end - start
      ensures forall j :: 0 <= j < |stale| ==> stale[j] == objects[start + j].raw
      ensures forall j :: start <= j < end ==> prefix <= objects[j].raw
      ensures end == |objects| || !(prefix <= objects[end].raw)
    {
      stale := [];
      var pos := Seek(objects, prefix);
      start := pos;
      while pos < |objects| && prefix <= objects[pos].raw
        invariant start <= pos <= |objects| && |stale| == pos - start
        invariant forall j :: 0 <= j < |stale| ==> stale[j] == objects[start + j].raw
        invariant forall j :: start <= j < pos ==> prefix <= objects[j].raw
      {
        stale := stale + [objects[pos].raw];
        pos := pos + 1;
      }
      end := pos;
    }

    method DeleteObjectMeta(key: Key, versionId: Key)
      requires Valid()
      modifies this`objects
      ensures Valid() && objects == DeleteMeta(old(objects), bucket, key, versionId)
    {
      if versionId != [] {
        Remove(VersionKey(bucket, key, versionId));
        var latestData := Get(objects, PointerKey(bucket, key));
        if latestData.Some? && latestData.value.versionId == versionId {
          var nextLatest := FindNextNewestVersion(key, versionId);
          if nextLatest.Some? {
            var info := nextLatest.value.(isLatest := true);
            Write(PointerKey(bucket, key), info);
            if info.versionId != [] {
              Write(VersionKey(bucket, key, info.versionId), info);
            }
          } else {
            Remove(PointerKey(bucket, key));
          }
        }
      } else {
        Remove(PointerKey(bucket, key));
        DeleteVersionRecords(key);
      }
    }

    method FindNextNewestVersion(key: Key, deletedVersionId: Key) returns (newest: Option<ObjectInfo>)
      ensures newest == Newest(objects, bucket, key, deletedVersionId)
    {
      var prefix := HistoryPrefix(bucket, key);
      newest := None;
      var pos := Seek(objects, prefix);
      while pos < |objects| && prefix <= objects[pos].raw
        invariant pos <= |objects|
        invariant NewestFrom(objects, prefix, deletedVersionId, pos, newest)
                  == Newest(objects, bucket, key, deletedVersionId)
      {
        var info := objects[pos].info;
        if info.versionId != deletedVersionId {
          if newest.None? || newest.value.lastModified < info.lastModified {
            newest := Some(info);
          }
        }
        pos := pos + 1;
      }
    }
  }

  // ----- scans by prefix -----

  /** The bucket with the `n` entries behind `start` gone. */
  ghost function Without(s: seq<Entry>, start: nat, n: nat): seq<Entry>
    requires start + n <= |s|
  {
    s[..start] + s[start + n..]
  }

  lemma WithoutIsSorted(s: seq<Entry>, start: nat, n: nat)
    requires Sorted(s) && start + n <= |s|
    ensures Sorted(Without(s, start, n))
  {
  }

  lemma DeleteNext(s: seq<Entry>, start: nat, n: nat)
    requires Sorted(s) && start + n < |s|
    ensures Delete(Without(s, start, n), s[start + n].raw) == Without(s, start, n + 1)
  {
    var t := Without(s, start, n);
    WithoutIsSorted(s, start, n);
    assert t[start] == s[start + n];
    FoundAtSeek(t, t[start].raw, start);
    assert t[..start] == s[..start] && t[start + 1..] == s[start + n + 1..];
  }

  /** The keys that start with `prefix` are those the cursor loop walks over. */
  lemma RangeIsPrefix(s: seq<Entry>, prefix: Key, start: nat, end: nat)
    requires Sorted(s) && start == Seek(s, prefix) <= end <= |s|
    requires forall j :: start <= j < end ==> prefix <= s[j].raw
    requires end == |s| || !(prefix <= s[end].raw)
    ensures DropPrefix(s, prefix) == s[..start] + s[end..]
  {
    forall j | 0 <= j < start || end <= j < |s| ensures !(prefix <= s[j].raw) {
      OutsideRange(s, prefix, start, end, j);
    }
    DropRange(s, prefix, start, end);
  }

  lemma OutsideRange(s: seq<Entry>, prefix: Key, start: nat, end: nat, j: nat)
    requires Sorted(s) && start == Seek(s, prefix) <= end <= |s|
    requires end == |s| || !(prefix <= s[end].raw)
    requires j < start || end <= j < |s|
    ensures !(prefix <= s[j].raw)
  {
    SeekSplits(s, prefix);
    if prefix <= s[j].raw {
      PrefixNotAbove(prefix, s[j].raw);
      if end < j {
        LessAsymmetric(s[end].raw, s[j].raw);
        PrefixIsConvex(prefix, prefix, s[end].raw, s[j].raw);
      }
    }
  }

  lemma DropRange(s: seq<Entry>, prefix: Key, start: nat, end: nat)
    requires start <= end <= |s|
    requires forall j :: 0 <= j < |s| ==> (prefix <= s[j].raw <==> start <= j < end)
    ensures DropPrefix(s, prefix) == s[..start] + s[end..]
  {
    var a, b, c := s[..start], s[start..end], s[end..];
    InRange(s, prefix, start, end);
    BehindRange(s, prefix, end);
    assert s == a + (b + c);
    KeepsFront(a, b + c, prefix);
    DropsFront(b, c, prefix);
  }

  lemma InRange(s: seq<Entry>, prefix: Key, start: nat, end: nat)
    requires start <= end <= |s| && forall j :: start <= j < end ==> prefix <= s[j].raw
    ensures forall j :: 0 <= j < |s[start..end]| ==> prefix <= s[start..end][j].raw
  {
  }

  lemma BehindRange(s: seq<Entry>, prefix: Key, end: nat)
    requires end <= |s| && forall j :: end <= j < |s| ==> !(prefix <= s[j].raw)
    ensures forall j :: 0 <= j < |s[end..]| ==> !(prefix <= s[end..][j].raw)
  {
  }

  lemma {:induction false} KeepsFront(a: seq<Entry>, rest: seq<Entry>, prefix: Key)
    requires forall j :: 0 <= j < |a| ==> !(prefix <= a[j].raw)
    ensures DropPrefix(a + rest, prefix) == a + DropPrefix(rest, prefix)
  {
    if a == [] {
      assert a + rest == rest;
    } else {
      assert (a + rest)[1..] == a[1..] + rest;
      KeepsFront(a[1..], rest, prefix);
    }
  }

  lemma {:induction false} DropsFront(b: seq<Entry>, c: seq<Entry>, prefix: Key)
    requires forall j :: 0 <= j < |b| ==> prefix <= b[j].raw
    requires forall j :: 0 <= j < |c| ==> !(prefix <= c[j].raw)
    ensures DropPrefix(b + c, prefix) == c
  {
    if b == [] {
      KeepsFront(c, [], prefix);
      assert b + c == c + [] == c;
    } else {
      assert (b + c)[1..] == b[1..] + c;
      DropsFront(b[1..], c, prefix);
    }
  }

  /** Dropping a prefix keeps exactly the other records. */
  lemma {:induction false} DropPrefixMeans(s: seq<Entry>, prefix: Key)
    requires Sorted(s)
    ensures Sorted(DropPrefix(s, prefix))
    ensures forall e :: e in DropPrefix(s, prefix) <==> e in s && !(prefix <= e.raw)
  {
    if s != [] {
      TailOfEntries(s);
      DropPrefixMeans(s[1..], prefix);
      var rest := DropPrefix(s[1..], prefix);
      forall i | 0 <= i < |rest| ensures Less(s[0].raw, rest[i].raw) {
        assert rest[i] in rest;
        var j :| 0 <= j < |s[1..]| && s[1..][j] == rest[i];
        assert Less(s[0].raw, s[j + 1].raw);
      }
    }
  }

  lemma DropPrefixThenGet(s: seq<Entry>, prefix: Key, j: Key)
    requires Sorted(s)
    ensures Get(DropPrefix(s, prefix), j) == if prefix <= j then None else Get(s, j)
  {
    DropPrefixMeans(s, prefix);
    GetMeans(s, j);
    forall e | e in s ensures Get(s, j).None? ==> e.raw != j {
      var i :| 0 <= i < |s| && s[i] == e;
    }
    GetBy(DropPrefix(s, prefix), j, if prefix <= j then None else Get(s, j));
  }

  // ----- the search for the next newest version -----

  /** The record at `i` is a version under the prefix other than the deleted one. */
  predicate Candidate(s: seq<Entry>, prefix: Key, deleted: Key, i: nat) {
    i < |s| && prefix <= s[i].raw && s[i].info.versionId != deleted
  }

  ghost predicate IsNewest(s: seq<Entry>, prefix: Key, deleted: Key, from: nat, r: Option<ObjectInfo>) {
    match r
    case None => forall i :: from <= i ==> !Candidate(s, prefix, deleted, i)
    case Some(x) =>
      && (exists i :: from <= i && Candidate(s, prefix, deleted, i) && s[i].info == x)
      && (forall i :: from <= i && Candidate(s, prefix, deleted, i) ==> s[i].info.lastModified <= x.lastModified)
  }

  lemma {:induction false} NewestFromIsNewest(s: seq<Entry>, prefix: Key, deleted: Key, i: nat,
                                              best: Option<ObjectInfo>)
    requires Sorted(s) && Seek(s, prefix) <= i <= |s|
    ensures var r := NewestFrom(s, prefix, deleted, i, best);
            if r == best then
              forall j :: i <= j && Candidate(s, prefix, deleted, j)
                  ==> best.Some? && s[j].info.lastModified <= best.value.lastModified
            else
              IsNewest(s, prefix, deleted, i, r) && r.Some?
                  && (best.Some? ==> best.value.lastModified < r.value.lastModified)
    decreases |s| - i
  {
    if i < |s| && prefix <= s[i].raw {
      var info := s[i].info;
      var next := if info.versionId != deleted
                  && (best.None? || best.value.lastModified < info.lastModified) then Some(info) else best;
      NewestFromIsNewest(s, prefix, deleted, i + 1, next);
      assert next != best ==> Candidate(s, prefix, deleted, i);
    } else {
      forall j | i <= j ensures !Candidate(s, prefix, deleted, j) {
        if Candidate(s, prefix, deleted, j) {
          OutsideRange(s, prefix, Seek(s, prefix), i, j);
        }
      }
    }
  }

  lemma NewestIsNewest(s: seq<Entry>, bucket: Key, key: Key, deleted: Key)
    requires Sorted(s)
    ensures IsNewest(s, HistoryPrefix(bucket, key), deleted, 0, Newest(s, bucket, key, deleted))
  {
    var prefix := HistoryPrefix(bucket, key);
    NewestFromIsNewest(s, prefix, deleted, Seek(s, prefix), None);
    SeekSplits(s, prefix);
    forall i: nat | i < Seek(s, prefix) ensures !Candidate(s, prefix, deleted, i) {
      if Candidate(s, prefix, deleted, i) {
        PrefixNotAbove(prefix, s[i].raw);
      }
    }
  }
}
