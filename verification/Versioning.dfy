/** How the engine's requests turn into metadata transactions, bucket status by
    bucket status, and what a reader then sees. */
module Versioning {
  import opened Keys
  import opened Records
  import opened VersionHistory
  import opened VersionStack
  import opened ObjectListing
  import opened ObjectPaging

  datatype Status = Unversioned | Enabled | Suspended

  /** The version id "null". */
  const NULL_ID: Key := [110, 117, 108, 108]

  /** The version id that a write gets: a fresh one, "null", or none. */
  function IdFor(status: Status, newId: Key): Key {
    match status
    case Enabled => newId
    case Suspended => NULL_ID
    case Unversioned => []
  }

  function PutObjectOp(status: Status, info: ObjectInfo, newId: Key): Op {
    PutOp(info.(versionId := IdFor(status, newId), isDeleteMarker := false))
  }

  function DeleteMarker(key: Key, versionId: Key, now: int): ObjectInfo {
    ObjectInfo(key, versionId, now, false, true, [], 0)
  }

  /** `DeleteObject`: a named version goes; otherwise a versioned bucket gets a
      delete marker and an unversioned one loses the object, if it has it. */
  function DeleteObjectOp(s: seq<Entry>, bucket: Key, status: Status, key: Key, versionId: Key, newId: Key,
                          now: int): Option<Op> {
    if versionId != [] then Some(DeleteOp(key, versionId))
    else if status != Unversioned then Some(PutOp(DeleteMarker(key, IdFor(status, newId), now)))
    else if Get(s, PointerKey(bucket, key)).Some? then Some(DeleteOp(key, []))
    else None
  }

  /** `HeadObject` up to the SSE-C check: missing records and delete markers are "no such key". */
  function HeadObject(s: seq<Entry>, bucket: Key, key: Key, versionId: Key): Option<ObjectInfo> {
    var found := Get(s, if versionId != [] then VersionKey(bucket, key, versionId) else PointerKey(bucket, key));
    if found.Some? && !found.value.isDeleteMarker then found else None
  }

  /** After a write the object reads back as written, and every other version
      that is not replaced still reads as before but for its IsLatest. */
  lemma WriteThenHead(s: seq<Entry>, bucket: Key, st: Stack, status: Status, info: ObjectInfo, newId: Key, other: Key)
    requires Sorted(s) && Represents(s, bucket, info.key, st) && newId != []
    requires forall x :: x in st ==> x.lastModified < info.lastModified
    ensures var op := PutObjectOp(status, info, newId);
            var t := Apply(s, bucket, op);
            && HeadObject(t, bucket, info.key, []) == Some(op.info.(isLatest := true))
            && (status != Unversioned
               ==> HeadObject(t, bucket, info.key, op.info.versionId) == Some(op.info.(isLatest := true)))
            && (status != Unversioned && other != [] && other != op.info.versionId
                && HeadObject(s, bucket, info.key, other).Some? ==>
                  HeadObject(t, bucket, info.key, other) == Some(Plain(HeadObject(s, bucket, info.key, other).value)))
  {
    var op := PutObjectOp(status, info, newId);
    PutRefines(s, bucket, info.key, st, op.info);
    HeadAfterPush(s, Apply(s, bucket, op), bucket, st, op.info, other);
  }

  /** What a pushed stack lets a reader find. */
  lemma HeadAfterPush(s: seq<Entry>, t: seq<Entry>, bucket: Key, st: Stack, info: ObjectInfo, other: Key)
    requires Represents(s, bucket, info.key, st) && Represents(t, bucket, info.key, Push(st, info))
    requires forall x :: x in st ==> x.lastModified < info.lastModified
    ensures HeadObject(t, bucket, info.key, []) == if info.isDeleteMarker then None else Some(info.(isLatest := true))
    ensures info.versionId != []
            ==> HeadObject(t, bucket, info.key, info.versionId) == if info.isDeleteMarker then None
                else Some(info.(isLatest := true))
    ensures info.versionId != [] && other != [] && other != info.versionId
            && HeadObject(s, bucket, info.key, other).Some? ==>
              HeadObject(t, bucket, info.key, other) == Some(Plain(HeadObject(s, bucket, info.key, other).value))
  {
    PushIsStack(st, info.key, info);
    if info.versionId != [] {
      RecordsAfterPush(st, info.key, info, info.versionId);
      RecordsAfterPush(st, info.key, info, other);
    }
  }

  // ----- status by status -----

  /** What was put, as a reader finds it. */
  function AsPut(info: ObjectInfo, versionId: Key): ObjectInfo {
    info.(versionId := versionId, isDeleteMarker := false, isLatest := true)
  }

  /** Every version that can be read in `s`, but for the one with the id `but`, can be
      read in `t` under its own id, no longer as the latest. */
  ghost predicate AllStillRead(s: seq<Entry>, t: seq<Entry>, bucket: Key, key: Key, but: Key) {
    forall v :: v != [] && v != but && HeadObject(s, bucket, key, v).Some? ==>
      HeadObject(t, bucket, key, v) == Some(HeadObject(s, bucket, key, v).value.(isLatest := false))
  }

  /** With versioning enabled a put adds a version under its fresh id and loses none. */
  lemma EnabledPutAdds(s: seq<Entry>, bucket: Key, st: Stack, info: ObjectInfo, newId: Key)
    requires Sorted(s) && Represents(s, bucket, info.key, st) && newId != []
    requires forall x :: x in st ==> x.lastModified < info.lastModified && x.versionId != newId
    ensures var t := Apply(s, bucket, PutObjectOp(Enabled, info, newId));
            && HeadObject(t, bucket, info.key, []) == Some(AsPut(info, newId))
            && HeadObject(t, bucket, info.key, newId) == Some(AsPut(info, newId))
            && (forall v :: v != [] && HeadObject(s, bucket, info.key, v).Some? ==>
                  HeadObject(t, bucket, info.key, v)
                      == Some(HeadObject(s, bucket, info.key, v).value.(isLatest := false)))
  {
    PutKeepsOthers(s, bucket, st, Enabled, info, newId);
    assert RecordOf(st, newId).None?;
  }

  /** With versioning suspended a put replaces the version "null" and no other. */
  lemma SuspendedPutReplacesNull(s: seq<Entry>, bucket: Key, st: Stack, info: ObjectInfo, newId: Key)
    requires Sorted(s) && Represents(s, bucket, info.key, st)
    requires forall x :: x in st ==> x.lastModified < info.lastModified
    ensures var t, nullId := Apply(s, bucket, PutObjectOp(Suspended, info, newId)), [110, 117, 108, 108];
            && HeadObject(t, bucket, info.key, []) == Some(AsPut(info, nullId))
            && HeadObject(t, bucket, info.key, nullId) == Some(AsPut(info, nullId))
            && AllStillRead(s, t, bucket, info.key, nullId)
  {
    PutKeepsOthers(s, bucket, st, Suspended, info, newId);
  }

  /** Without versioning a put leaves the one object, without an id. */
  lemma UnversionedPutReplacesAll(s: seq<Entry>, bucket: Key, st: Stack, info: ObjectInfo, newId: Key)
    requires Sorted(s) && Represents(s, bucket, info.key, st)
    requires forall x :: x in st ==> x.lastModified < info.lastModified
    ensures var t := Apply(s, bucket, PutObjectOp(Unversioned, info, newId));
            && HeadObject(t, bucket, info.key, []) == Some(AsPut(info, []))
            && forall v :: v != [] ==> HeadObject(t, bucket, info.key, v) == None
  {
    var op := PutObjectOp(Unversioned, info, newId);
    PutRefines(s, bucket, info.key, st, op.info);
    HeadAfterPush(s, Apply(s, bucket, op), bucket, st, op.info, []);
    forall v | v != [] ensures RecordOf(Push(st, op.info), v).None? {
      OneUnversioned(op.info, v);
    }
  }

  lemma OneUnversioned(x: ObjectInfo, v: Key)
    requires x.versionId == [] && v != []
    ensures RecordOf([Plain(x)], v).None?
  {
    assert [Plain(x)][1..] == [];
  }

  lemma PutKeepsOthers(s: seq<Entry>, bucket: Key, st: Stack, status: Status, info: ObjectInfo, newId: Key)
    requires Sorted(s) && Represents(s, bucket, info.key, st) && IdFor(status, newId) != []
    requires forall x :: x in st ==> x.lastModified < info.lastModified
    ensures var t, id := Apply(s, bucket, PutObjectOp(status, info, newId)), IdFor(status, newId);
            && HeadObject(t, bucket, info.key, []) == Some(AsPut(info, id))
            && HeadObject(t, bucket, info.key, id) == Some(AsPut(info, id))
            && AllStillRead(s, t, bucket, info.key, id)
  {
    var op := PutObjectOp(status, info, newId);
    var t := Apply(s, bucket, op);
    PutRefines(s, bucket, info.key, st, op.info);
    HeadAfterPush(s, t, bucket, st, op.info, []);
    forall v | v != [] && v != op.info.versionId && HeadObject(s, bucket, info.key, v).Some?
      ensures HeadObject(t, bucket, info.key, v) == Some(HeadObject(s, bucket, info.key, v).value.(isLatest := false))
    {
      HeadAfterPush(s, t, bucket, st, op.info, v);
    }
  }

  /** A delete without a version id leaves a delete marker under a fresh id when
      versioning is enabled, under "null" when it is suspended, and nothing when it
      never was on. */
  lemma DeleteLeaves(s: seq<Entry>, bucket: Key, st: Stack, key: Key, newId: Key, now: int)
    requires Sorted(s) && Represents(s, bucket, key, st) && newId != [] && st != []
    requires forall x :: x in st ==> x.lastModified < now
    ensures var op := DeleteObjectOp(s, bucket, Enabled, key, [], newId, now);
            op.Some? && Get(Apply(s, bucket, op.value), VersionKey(bucket, key, newId))
                        == Some(ObjectInfo(key, newId, now, true, true, [], 0))
    ensures var op, nullId := DeleteObjectOp(s, bucket, Suspended, key, [], newId, now), [110, 117, 108, 108];
            op.Some? && Get(Apply(s, bucket, op.value), VersionKey(bucket, key, nullId))
                        == Some(ObjectInfo(key, nullId, now, true, true, [], 0))
    ensures var op := DeleteObjectOp(s, bucket, Unversioned, key, [], newId, now);
            op.Some? && Get(Apply(s, bucket, op.value), PointerKey(bucket, key)) == None
                     && forall v :: Get(Apply(s, bucket, op.value), VersionKey(bucket, key, v)) == None
  {
    MarkerLeft(s, bucket, st, Enabled, key, newId, now);
    MarkerLeft(s, bucket, st, Suspended, key, newId, now);
    NothingLeft(s, bucket, st, key, newId, now);
  }

  lemma MarkerLeft(s: seq<Entry>, bucket: Key, st: Stack, status: Status, key: Key, newId: Key, now: int)
    requires Sorted(s) && Represents(s, bucket, key, st) && IdFor(status, newId) != []
    requires forall x :: x in st ==> x.lastModified < now
    ensures var op, id := DeleteObjectOp(s, bucket, status, key, [], newId, now), IdFor(status, newId);
            op.Some? && Get(Apply(s, bucket, op.value), VersionKey(bucket, key, id))
                        == Some(ObjectInfo(key, id, now, true, true, [], 0))
  {
    MarkerIsRecorded(s, bucket, st, DeleteMarker(key, IdFor(status, newId), now));
  }

  lemma NothingLeft(s: seq<Entry>, bucket: Key, st: Stack, key: Key, newId: Key, now: int)
    requires Sorted(s) && Represents(s, bucket, key, st) && st != []
    ensures var op := DeleteObjectOp(s, bucket, Unversioned, key, [], newId, now);
            op.Some? && Get(Apply(s, bucket, op.value), PointerKey(bucket, key)) == None
                     && forall v :: Get(Apply(s, bucket, op.value), VersionKey(bucket, key, v)) == None
  {
    DeleteAllRefines(s, bucket, key);
  }

  lemma MarkerIsRecorded(s: seq<Entry>, bucket: Key, st: Stack, marker: ObjectInfo)
    requires Sorted(s) && Represents(s, bucket, marker.key, st) && marker.versionId != []
    requires forall x :: x in st ==> x.lastModified < marker.lastModified
    ensures Get(Apply(s, bucket, PutOp(marker)), VersionKey(bucket, marker.key, marker.versionId))
            == Some(marker.(isLatest := true))
  {
    PutRefines(s, bucket, marker.key, st, marker);
    PushIsStack(st, marker.key, marker);
    RecordsAfterPush(st, marker.key, marker, marker.versionId);
  }

  /** A delete of a named version removes just that one, whatever the status. */
  lemma NamedDeleteRemovesOne(s: seq<Entry>, bucket: Key, st: Stack, status: Status, key: Key, versionId: Key,
                              newId: Key, now: int, v: Key)
    requires Sorted(s) && Represents(s, bucket, key, st) && versionId != []
    ensures var op := DeleteObjectOp(s, bucket, status, key, versionId, newId, now);
            op.Some? &&
            var t := Apply(s, bucket, op.value);
            && HeadObject(t, bucket, key, versionId) == None
            && (v != [] && v != versionId && HeadObject(s, bucket, key, v).Some? ==>
                  HeadObject(t, bucket, key, v).Some?
                  && Plain(HeadObject(t, bucket, key, v).value) == Plain(HeadObject(s, bucket, key, v).value))
  {
    DeleteVersionRefines(s, bucket, key, st, versionId);
    RemoveIsStack(st, key, versionId);
    NoSuchRecord(Remove(st, versionId), versionId);
    if v != [] && v != versionId {
      RemoveKeepsRecord(st, key, versionId, v);
    }
  }

  lemma RemoveKeepsRecord(st: Stack, key: Key, gone: Key, v: Key)
    requires IsStack(st, key) && v != [] && v != gone
    ensures RecordOf(st, v).Some? ==> RecordOf(Remove(st, gone), v).Some?
                                      && Plain(RecordOf(Remove(st, gone), v).value) == Plain(RecordOf(st, v).value)
  {
    RemoveIsStack(st, key, gone);
    if RecordOf(st, v).Some? {
      var x, left := st[Find(st, v)], Remove(st, gone);
      MemberAt(st, Find(st, v));
      assert x in left;
      var i :| 0 <= i < |left| && left[i] == x;
      RecordOfMember(left, key, i);
    }
  }

  /** Deleting without a version id in a versioned bucket hides the object ... */
  lemma DeleteHides(s: seq<Entry>, bucket: Key, st: Stack, status: Status, key: Key, newId: Key, now: int)
    requires Sorted(s) && Represents(s, bucket, key, st) && newId != []
    requires forall x :: x in st ==> x.lastModified < now
    ensures var op := DeleteObjectOp(s, bucket, status, key, [], newId, now);
            HeadObject(if op.Some? then Apply(s, bucket, op.value) else s, bucket, key, []) == None
  {
    if status == Unversioned {
      DeleteAllRefines(s, bucket, key);
    } else {
      var marker := DeleteMarker(key, IdFor(status, newId), now);
      PutRefines(s, bucket, key, st, marker);
      PushIsStack(st, key, marker);
    }
  }

  /** What a reader finds under `versionId` in `s` is found in `t` under its own
      version id, no longer as the latest; the version `gone` is exempt. */
  predicate StillReads(s: seq<Entry>, t: seq<Entry>, bucket: Key, key: Key, versionId: Key, gone: Key) {
    var found := HeadObject(s, bucket, key, versionId);
    found.Some? && found.value.versionId != gone ==>
      HeadObject(t, bucket, key, found.value.versionId) == Some(Plain(found.value))
  }

  /** ... and keeps every version but the "null" one in a suspended bucket, if and
      only if the object is not an unversioned one from before versioning. */
  lemma DeleteKeepsVersions(s: seq<Entry>, bucket: Key, st: Stack, status: Status, key: Key, newId: Key, now: int)
    requires Sorted(s) && Represents(s, bucket, key, st) && status != Unversioned && newId != []
    requires forall x :: x in st ==> x.lastModified < now
    ensures var op := DeleteObjectOp(s, bucket, status, key, [], newId, now);
            op.Some? &&
            ((forall v :: StillReads(s, Apply(s, bucket, op.value), bucket, key, v, IdFor(status, newId)))
             <==> HeadObject(s, bucket, key, []).None? || HeadObject(s, bucket, key, []).value.versionId != [])
  {
    var marker := DeleteMarker(key, IdFor(status, newId), now);
    var t := Apply(s, bucket, PutOp(marker));
    PutRefines(s, bucket, key, st, marker);
    HeadAfterPush(s, t, bucket, st, marker, []);
    var current := HeadObject(s, bucket, key, []);
    if current.Some? && current.value.versionId == [] {
      assert !StillReads(s, t, bucket, key, [], marker.versionId);
    } else {
      forall v ensures StillReads(s, t, bucket, key, v, marker.versionId) {
        OlderStillReads(s, t, bucket, st, marker, v);
      }
    }
  }

  lemma OlderStillReads(s: seq<Entry>, t: seq<Entry>, bucket: Key, st: Stack, marker: ObjectInfo, v: Key)
    requires Represents(s, bucket, marker.key, st) && Represents(t, bucket, marker.key, Push(st, marker))
             && marker.versionId != []
    requires forall x :: x in st ==> x.lastModified < marker.lastModified
    requires v == [] && HeadObject(s, bucket, marker.key, []).Some?
             ==> HeadObject(s, bucket, marker.key, []).value.versionId != []
    ensures StillReads(s, t, bucket, marker.key, v, marker.versionId)
  {
    var found := HeadObject(s, bucket, marker.key, v);
    if found.Some? {
      if v == [] {
        RecordOfMember(st, marker.key, |st| - 1);
      }
      HeadAfterPush(s, t, bucket, st, marker, found.value.versionId);
    }
  }

  /** Put "a" in an unversioned bucket, enable versioning and delete it: it is gone
      under every version id. */
  lemma FirstMarkerLosesObject(bucket: Key, newId: Key, v: Key)
    requires newId != []
    ensures var s := Run([], bucket, [PutOp(Example([], 1))]);
            var op := DeleteObjectOp(s, bucket, Enabled, [97], [], newId, 2);
            && HeadObject(s, bucket, [97], []).Some?
            && op.Some? && HeadObject(Apply(s, bucket, op.value), bucket, [97], v) == None
  {
    var s, ops, marker := Run([], bucket, [PutOp(Example([], 1))]), [PutOp(Example([], 1))],
                          DeleteMarker([97], newId, 2);
    assert ops[1..] == [];
    OnePut(bucket, []);
    RunsSpellOutHistories(bucket, ops, 0, [97]);
    assert StackOf(RunAfter(map[], ops), [97]) == [Example([], 1)];
    PutRefines(s, bucket, [97], [Example([], 1)], marker);
    assert Push([Example([], 1)], marker) == [marker];
  }

  /** The store that any run leaves is one that `ListObjects` lists correctly:
      sorted, and each latest pointer carries its own non-empty key. */
  lemma {:induction false} RunIsListable(bucket: Key, ops: seq<Op>, now: int)
    requires Clocked(ops, now)
    ensures var s := Run([], bucket, ops);
            Sorted(s) && Named(s, bucket) && forall v: View :: v.bucket == bucket ==> Consistent(s, v)
  {
    var s, h := Run([], bucket, ops), RunAfter(map[], ops);
    ClockedIsAllowed(map[], ops, now);
    RunRefines([], bucket, map[], ops);
    NoEmptyKey(map[], ops, now);
    forall i | 0 <= i < |s| && IsPointer(bucket, s[i])
      ensures s[i].info.key == ObjectKey(bucket, s[i].raw) != []
    {
      PointerIsNamed(s, bucket, h, i);
    }
  }

  lemma PointerIsNamed(s: seq<Entry>, bucket: Key, h: Histories, i: nat)
    requires Refines(s, bucket, h) && [] !in h && i < |s| && IsPointer(bucket, s[i])
    ensures s[i].info.key == ObjectKey(bucket, s[i].raw) != []
  {
    var key := ObjectKey(bucket, s[i].raw);
    assert s[i].raw == PointerKey(bucket, key);
    GetMeans(s, s[i].raw);
    assert Represents(s, bucket, key, StackOf(h, key));
  }

  lemma {:induction false} NoEmptyKey(h: Histories, ops: seq<Op>, now: int)
    requires [] !in h && Clocked(ops, now)
    ensures [] !in RunAfter(h, ops)
    decreases |ops|
  {
    if ops != [] {
      NoEmptyKey(After(h, ops[0]), ops[1..], if ops[0].PutOp? then ops[0].info.lastModified else now);
    }
  }
}
