/** What the version records of a bucket mean: one stack of versions per object,
    oldest first. Every run of puts and deletes on the records does to the stacks
    what a reader expects of it. */
module VersionStack {
  import opened Keys
  import opened Records
  import opened VersionHistory

  /** The versions of one object, oldest first, with `isLatest` left out. */
  type Stack = seq<ObjectInfo>

  function Plain(info: ObjectInfo): ObjectInfo {
    info.(isLatest := false)
  }

  function Top(st: Stack): ObjectInfo
    requires st != []
  {
    st[|st| - 1]
  }

  /** Where a version id sits in the stack, or `|st|`. */
  function Find(st: Stack, versionId: Key): (i: nat)
    ensures i <= |st| && (i < |st| ==> st[i].versionId == versionId)
    ensures forall j :: 0 <= j < i ==> st[j].versionId != versionId
  {
    if st == [] then 0
    else if st[0].versionId == versionId then 0
    else 1 + Find(st[1..], versionId)
  }

  function Remove(st: Stack, versionId: Key): Stack {
    var i := Find(st, versionId);
    if i < |st| then st[..i] + st[i + 1..] else st
  }

  /** A write without a version id replaces everything; a write with one replaces
      the version of that id and an unversioned predecessor, and is then current. */
  function Push(st: Stack, info: ObjectInfo): Stack {
    if info.versionId == [] then [Plain(info)]
    else if st != [] && Top(st).versionId == [] then [Plain(info)]
    else Remove(st, info.versionId) + [Plain(info)]
  }

  /** Distinct ids, ascending times, an unversioned version only on its own. */
  ghost predicate IsStack(st: Stack, key: Key) {
    && (forall i :: 0 <= i < |st| ==> st[i].key == key && !st[i].isLatest)
    && (forall i, j :: 0 <= i < j < |st| ==>
         st[i].versionId != st[j].versionId && st[i].lastModified < st[j].lastModified)
    && (|st| > 1 ==> forall i :: 0 <= i < |st| ==> st[i].versionId != [])
  }

  /** The history record a stack calls for under a version id. */
  function RecordOf(st: Stack, versionId: Key): Option<ObjectInfo> {
    var i := Find(st, versionId);
    if versionId != [] && i < |st| then Some(st[i].(isLatest := i == |st| - 1)) else None
  }

  function PointerOf(st: Stack): Option<ObjectInfo> {
    if st == [] then None else Some(Top(st).(isLatest := true))
  }

  /** The records of `key` spell out the stack: the pointer is the newest version,
      exactly its record has IsLatest, and an unversioned key has no history. */
  ghost predicate Represents(s: seq<Entry>, bucket: Key, key: Key, st: Stack) {
    && IsStack(st, key)
    && Get(s, PointerKey(bucket, key)) == PointerOf(st)
    && forall v :: Get(s, VersionKey(bucket, key, v)) == RecordOf(st, v)
  }

  // ----- the records of different keys do not meet -----

  predicate Belongs(bucket: Key, key: Key, raw: Key) {
    raw == PointerKey(bucket, key) || HistoryPrefix(bucket, key) <= raw
  }

  lemma VersionKeyMeans(bucket: Key, key: Key, raw: Key)
    ensures HistoryPrefix(bucket, key) <= raw <==> exists v :: raw == VersionKey(bucket, key, v)
    ensures forall v :: HistoryPrefix(bucket, key) <= VersionKey(bucket, key, v)
    ensures forall v, w :: VersionKey(bucket, key, v) == VersionKey(bucket, key, w) ==> v == w
    ensures forall v :: VersionKey(bucket, key, v) != PointerKey(bucket, key)
  {
    var p := HistoryPrefix(bucket, key);
    forall v ensures VersionKey(bucket, key, v) == p + v {
    }
    if p <= raw {
      assert raw == VersionKey(bucket, key, raw[|p|..]);
    }
    forall v, w | VersionKey(bucket, key, v) == VersionKey(bucket, key, w) ensures v == w {
      assert v == (p + v)[|p|..] && w == (p + w)[|p|..];
    }
    forall v ensures |VersionKey(bucket, key, v)| > |PointerKey(bucket, key)| {
    }
  }

  lemma KeysApart(bucket: Key, a: Key, b: Key, raw: Key)
    requires 0 !in a && 0 !in b && a != b
    requires Belongs(bucket, a, raw)
    ensures !Belongs(bucket, b, raw)
  {
    if Belongs(bucket, b, raw) {
      OwnerIsUnique(bucket, a, b, raw);
    }
  }

  lemma OwnerIsUnique(bucket: Key, a: Key, b: Key, raw: Key)
    requires 0 !in a && 0 !in b
    requires Belongs(bucket, a, raw) && Belongs(bucket, b, raw)
    ensures a == b
  {
    BelongsMeans(bucket, a, raw);
    BelongsMeans(bucket, b, raw);
    assert |a| == |b|;
  }

  /** Behind the bucket a record starts with its object's key, and a 0x00 follows. */
  lemma BelongsMeans(bucket: Key, key: Key, raw: Key)
    requires Belongs(bucket, key, raw)
    ensures |bucket| + 1 <= |raw| && key <= raw[|bucket| + 1..]
    ensures |raw| > |bucket| + 1 + |key| ==> raw[|bucket| + 1 + |key|] == 0
  {
    var n := |bucket| + 1;
    assert PointerKey(bucket, key)[n..] == key;
    if HistoryPrefix(bucket, key) <= raw {
      assert raw[..n + |key| + 1] == PointerKey(bucket, key) + [0];
      assert raw[n..][..|key|] == PointerKey(bucket, key)[n..];
    }
  }

  // ----- what the transactions leave to be found -----

  ghost predicate Demotes(s: seq<Entry>, bucket: Key, info: ObjectInfo) {
    var prior := Get(s, PointerKey(bucket, info.key));
    prior.Some? && prior.value.versionId != [] && prior.value.versionId != info.versionId
  }

  lemma PutMetaGets(s: seq<Entry>, bucket: Key, info: ObjectInfo, raw: Key)
    requires Sorted(s)
    ensures Sorted(PutMeta(s, bucket, info))
    ensures var now := info.(isLatest := true);
            var pointer := PointerKey(bucket, info.key);
            var prior := Get(s, pointer);
            Get(PutMeta(s, bucket, info), raw) ==
              if raw == pointer then Some(now)
              else if info.versionId != [] && raw == VersionKey(bucket, info.key, info.versionId) then Some(now)
              else if info.versionId == [] && HistoryPrefix(bucket, info.key) <= raw then None
              else if Demotes(s, bucket, info)
                      && raw == VersionKey(bucket, prior.value.key, prior.value.versionId) then Some(Plain(prior.value))
              else Get(s, raw)
  {
    var now := info.(isLatest := true);
    var pointer := PointerKey(bucket, info.key);
    var prior := Get(s, pointer);
    var demoted := s;
    if Demotes(s, bucket, info) {
      var k := VersionKey(bucket, prior.value.key, prior.value.versionId);
      PutKeepsOrder(s, k, Plain(prior.value));
      PutThenGet(s, k, Plain(prior.value), raw);
      demoted := Put(s, k, Plain(prior.value));
    }
    var recorded;
    if info.versionId != [] {
      var k := VersionKey(bucket, info.key, info.versionId);
      PutKeepsOrder(demoted, k, now);
      PutThenGet(demoted, k, now, raw);
      recorded := Put(demoted, k, now);
    } else {
      DropPrefixMeans(demoted, HistoryPrefix(bucket, info.key));
      DropPrefixThenGet(demoted, HistoryPrefix(bucket, info.key), raw);
      recorded := DropPrefix(demoted, HistoryPrefix(bucket, info.key));
    }
    PutKeepsOrder(recorded, pointer, now);
    PutThenGet(recorded, pointer, now, raw);
  }

  lemma DeleteAllGets(s: seq<Entry>, bucket: Key, key: Key, raw: Key)
    requires Sorted(s)
    ensures Sorted(DeleteAll(s, bucket, key))
    ensures Get(DeleteAll(s, bucket, key), raw) == if Belongs(bucket, key, raw) then None else Get(s, raw)
  {
    var p := PointerKey(bucket, key);
    DeleteKeepsOrder(s, p);
    DeleteThenGet(s, p, raw);
    DropPrefixMeans(Delete(s, p), HistoryPrefix(bucket, key));
    DropPrefixThenGet(Delete(s, p), HistoryPrefix(bucket, key), raw);
  }

  // ----- the refinement of one key -----

  lemma FindIsUnique(st: Stack, key: Key, i: nat)
    requires IsStack(st, key) && i < |st|
    ensures Find(st, st[i].versionId) == i
  {
    var j := Find(st, st[i].versionId);
    assert !(i < j);
    assert !(j < i);
  }

  lemma RemoveIsStack(st: Stack, key: Key, versionId: Key)
    requires IsStack(st, key)
    ensures IsStack(Remove(st, versionId), key)
    ensures forall v :: v in Remove(st, versionId) <==> v in st && v.versionId != versionId
  {
    var i := Find(st, versionId);
    if i < |st| {
      DropMember(st, key, i);
    } else {
      forall v | v in st ensures v.versionId != versionId {
        var j :| 0 <= j < |st| && st[j] == v;
      }
    }
  }

  lemma DropMember(st: Stack, key: Key, i: nat)
    requires IsStack(st, key) && i < |st|
    ensures IsStack(st[..i] + st[i + 1..], key)
    ensures forall v :: v in st[..i] + st[i + 1..] <==> v in st && v.versionId != st[i].versionId
  {
    DropKeepsStack(st, key, i);
    forall v ensures v in st[..i] + st[i + 1..] <==> v in st && v.versionId != st[i].versionId {
      DropRemoves(st, key, i, v);
    }
  }

  lemma DropKeepsStack(st: Stack, key: Key, i: nat)
    requires IsStack(st, key) && i < |st|
    ensures IsStack(st[..i] + st[i + 1..], key)
  {
    var r := st[..i] + st[i + 1..];
    assert forall j :: 0 <= j < |r| ==> r[j] == st[if j < i then j else j + 1];
  }

  lemma DropRemoves(st: Stack, key: Key, i: nat, v: ObjectInfo)
    requires IsStack(st, key) && i < |st|
    ensures v in st[..i] + st[i + 1..] <==> v in st && v.versionId != st[i].versionId
  {
    var r := st[..i] + st[i + 1..];
    if v in r {
      var j :| 0 <= j < |r| && r[j] == v;
      assert v == st[if j < i then j else j + 1];
    }
    if v in st && v.versionId != st[i].versionId {
      var j :| 0 <= j < |st| && st[j] == v;
      assert r[if j < i then j else j - 1] == v;
    }
  }

  /** A stack member is what its version id finds. */
  lemma RecordOfMember(st: Stack, key: Key, i: nat)
    requires IsStack(st, key) && i < |st|
    ensures RecordOf(st, st[i].versionId) == if st[i].versionId != [] then Some(st[i].(isLatest := i == |st| - 1))
            else None
  {
    FindIsUnique(st, key, i);
  }

  lemma NoSuchRecord(st: Stack, v: Key)
    requires forall x :: x in st ==> x.versionId != v
    ensures RecordOf(st, v) == None
  {
    var i := Find(st, v);
    if i < |st| {
      MemberAt(st, i);
    }
  }

  lemma MemberAt(st: Stack, i: nat)
    requires i < |st|
    ensures st[i] in st
  {
  }

  lemma PushIsStack(st: Stack, key: Key, info: ObjectInfo)
    requires IsStack(st, key) && info.key == key
    requires forall x :: x in st ==> x.lastModified < info.lastModified
    ensures IsStack(Push(st, info), key) && Top(Push(st, info)) == Plain(info)
    ensures info.versionId != [] ==> forall x ::
              x in Push(st, info) <==>
              x == Plain(info) || (x in st && x.versionId != [] && x.versionId != info.versionId)
  {
    if info.versionId != [] && !(st != [] && Top(st).versionId == []) {
      RemoveIsStack(st, key, info.versionId);
      AppendIsStack(Remove(st, info.versionId), key, info);
    }
  }

  lemma AppendIsStack(st: Stack, key: Key, info: ObjectInfo)
    requires IsStack(st, key) && info.key == key && info.versionId != []
    requires forall x ::
               x in st ==> x.lastModified < info.lastModified && x.versionId != info.versionId && x.versionId != []
    ensures IsStack(st + [Plain(info)], key)
  {
    forall i | 0 <= i < |st|
        ensures st[i].lastModified < info.lastModified && st[i].versionId != info.versionId && st[i].versionId != [] {
      MemberAt(st, i);
    }
  }

  /** The records a push calls for: the new version's, and every other version's
      as before but not latest. */
  lemma RecordsAfterPush(st: Stack, key: Key, info: ObjectInfo, v: Key)
    requires IsStack(st, key) && info.key == key && info.versionId != []
    requires forall x :: x in st ==> x.lastModified < info.lastModified
    ensures RecordOf(Push(st, info), v) ==
              if v == info.versionId then Some(info.(isLatest := true))
              else if RecordOf(st, v).Some? then Some(Plain(RecordOf(st, v).value))
              else None
  {
    PushIsStack(st, key, info);
    var p := Push(st, info);
    if v == info.versionId {
      RecordOfMember(p, key, |p| - 1);
    } else if v != [] && Find(st, v) < |st| {
      var x := st[Find(st, v)];
      MemberAt(st, Find(st, v));
      assert x in p;
      var i :| 0 <= i < |p| && p[i] == x;
      RecordOfMember(p, key, i);
    } else {
      forall x | x in p ensures v != [] ==> x.versionId != v {
      }
      if v != [] { NoSuchRecord(p, v); }
    }
  }

  lemma PutRefines(s: seq<Entry>, bucket: Key, key: Key, st: Stack, info: ObjectInfo)
    requires Sorted(s) && Represents(s, bucket, key, st) && info.key == key
    requires forall x :: x in st ==> x.lastModified < info.lastModified
    ensures Represents(PutMeta(s, bucket, info), bucket, key, Push(st, info))
  {
    PutMetaGets(s, bucket, info, PointerKey(bucket, key));
    PushIsStack(st, key, info);
    forall v ensures Get(PutMeta(s, bucket, info), VersionKey(bucket, key, v)) == RecordOf(Push(st, info), v) {
      PutRefinesRecord(s, bucket, key, st, info, v);
    }
  }

  lemma PutRefinesRecord(s: seq<Entry>, bucket: Key, key: Key, st: Stack, info: ObjectInfo, v: Key)
    requires Sorted(s) && Represents(s, bucket, key, st) && info.key == key
    requires forall x :: x in st ==> x.lastModified < info.lastModified
    ensures Get(PutMeta(s, bucket, info), VersionKey(bucket, key, v)) == RecordOf(Push(st, info), v)
  {
    var raw := VersionKey(bucket, key, v);
    VersionKeyMeans(bucket, key, raw);
    PutMetaGets(s, bucket, info, raw);
    if info.versionId != [] {
      RecordsAfterPush(st, key, info, v);
      DemotesTop(s, bucket, key, st, info, v);
    }
  }

  /** The put demotes the top of a versioned stack and finds its record. */
  lemma DemotesTop(s: seq<Entry>, bucket: Key, key: Key, st: Stack, info: ObjectInfo, v: Key)
    requires Represents(s, bucket, key, st) && info.key == key && info.versionId != []
    ensures Demotes(s, bucket, info) <==> st != [] && Top(st).versionId != [] && Top(st).versionId != info.versionId
    ensures Demotes(s, bucket, info) ==> Get(s, PointerKey(bucket, key)).value == Top(st).(isLatest := true)
    ensures Demotes(s, bucket, info) && v == Top(st).versionId ==> RecordOf(st, v) == Some(Top(st).(isLatest := true))
    ensures !(st != [] && Top(st).versionId == v) && RecordOf(st, v).Some? ==> !RecordOf(st, v).value.isLatest
  {
    if st != [] {
      RecordOfMember(st, key, |st| - 1);
    }
  }

  /** Without its top version the next newest one is found in the history. */
  lemma NewestUncovers(s: seq<Entry>, bucket: Key, key: Key, st: Stack, removed: seq<Entry>)
    requires Sorted(s) && Represents(s, bucket, key, st) && st != [] && Top(st).versionId != []
    requires removed == Delete(s, VersionKey(bucket, key, Top(st).versionId))
    ensures Newest(removed, bucket, key, Top(st).versionId) == if |st| == 1 then None else Some(st[|st| - 2])
  {
    var r := Newest(removed, bucket, key, Top(st).versionId);
    NewestIsOlder(s, bucket, key, st, removed, r);
    if |st| > 1 {
      NewestIsLate(s, bucket, key, st, removed, r);
      NewestOfOlder(st, key, r);
    }
  }

  lemma NewestIsOlder(s: seq<Entry>, bucket: Key, key: Key, st: Stack, removed: seq<Entry>, r: Option<ObjectInfo>)
    requires Sorted(s) && Represents(s, bucket, key, st) && st != []
    requires removed == Delete(s, VersionKey(bucket, key, Top(st).versionId))
    requires r == Newest(removed, bucket, key, Top(st).versionId)
    ensures r.Some? ==> r.value in st[..|st| - 1]
  {
    var vid, prefix := Top(st).versionId, HistoryPrefix(bucket, key);
    DeleteKeepsOrder(s, VersionKey(bucket, key, vid));
    NewestIsNewest(removed, bucket, key, vid);
    if r.Some? {
      var i: nat :| Candidate(removed, prefix, vid, i) && removed[i].info == r.value;
      CandidateIsOlder(s, bucket, key, st, removed, i);
    }
  }

  lemma NewestIsLate(s: seq<Entry>, bucket: Key, key: Key, st: Stack, removed: seq<Entry>, r: Option<ObjectInfo>)
    requires Sorted(s) && Represents(s, bucket, key, st) && |st| > 1
    requires removed == Delete(s, VersionKey(bucket, key, Top(st).versionId))
    requires r == Newest(removed, bucket, key, Top(st).versionId)
    ensures r.Some? && st[|st| - 2].lastModified <= r.value.lastModified
  {
    DeleteKeepsOrder(s, VersionKey(bucket, key, Top(st).versionId));
    NewestIsNewest(removed, bucket, key, Top(st).versionId);
    var i := OlderIsCandidate(s, bucket, key, st, removed, |st| - 2);
  }

  lemma NewestOfOlder(st: Stack, key: Key, r: Option<ObjectInfo>)
    requires IsStack(st, key) && |st| > 1
    requires r.Some? && r.value in st[..|st| - 1] && st[|st| - 2].lastModified <= r.value.lastModified
    ensures r.value == st[|st| - 2]
  {
    var j :| 0 <= j < |st| - 1 && st[..|st| - 1][j] == r.value;
    assert st[j] == r.value;
  }

  lemma CandidateIsOlder(s: seq<Entry>, bucket: Key, key: Key, st: Stack, removed: seq<Entry>, i: nat)
    requires Sorted(s) && Represents(s, bucket, key, st) && st != []
    requires removed == Delete(s, VersionKey(bucket, key, Top(st).versionId))
    requires Candidate(removed, HistoryPrefix(bucket, key), Top(st).versionId, i)
    ensures removed[i].info in st[..|st| - 1]
  {
    var vid, raw := Top(st).versionId, removed[i].raw;
    DeleteKeepsOrder(s, VersionKey(bucket, key, vid));
    DeleteThenGet(s, VersionKey(bucket, key, vid), raw);
    GetMeans(removed, raw);
    VersionKeyMeans(bucket, key, raw);
    var v :| raw == VersionKey(bucket, key, v);
    assert Get(s, raw) == Some(removed[i].info) == RecordOf(st, v);
    var j := Find(st, v);
    FindIsUnique(st, key, |st| - 1);
    assert j < |st| - 1;
    assert st[..|st| - 1][j] == st[j] == removed[i].info;
  }

  lemma OlderIsCandidate(s: seq<Entry>, bucket: Key, key: Key, st: Stack, removed: seq<Entry>, j: nat) returns (i: nat)
    requires Sorted(s) && Represents(s, bucket, key, st) && j < |st| - 1
    requires removed == Delete(s, VersionKey(bucket, key, Top(st).versionId))
    ensures Candidate(removed, HistoryPrefix(bucket, key), Top(st).versionId, i) && removed[i].info == st[j]
  {
    var vid, raw := Top(st).versionId, VersionKey(bucket, key, st[j].versionId);
    RecordOfMember(st, key, j);
    VersionKeyMeans(bucket, key, raw);
    assert raw != VersionKey(bucket, key, vid);
    DeleteKeepsOrder(s, VersionKey(bucket, key, vid));
    DeleteThenGet(s, VersionKey(bucket, key, vid), raw);
    GetMeans(removed, raw);
    assert Entry(raw, st[j]) in removed;
    i :| 0 <= i < |removed| && removed[i] == Entry(raw, st[j]);
  }

  /** What deleting a version leaves: its record goes; if it was current, the next
      newest version is promoted in the pointer and in its own record. */
  lemma DeleteVersionGets(s: seq<Entry>, bucket: Key, key: Key, st: Stack, vid: Key, raw: Key)
    requires Sorted(s) && Represents(s, bucket, key, st) && vid != []
    ensures Sorted(DeleteVersion(s, bucket, key, vid))
    ensures var pointer := PointerKey(bucket, key);
            var promoted := st != [] && Top(st).versionId == vid;
            Get(DeleteVersion(s, bucket, key, vid), raw) ==
              if promoted && raw == pointer then PointerOf(st[..|st| - 1])
              else if promoted && |st| > 1
                      && raw == VersionKey(bucket, key, st[|st| - 2].versionId) then PointerOf(st[..|st| - 1])
              else if raw == VersionKey(bucket, key, vid) then None
              else Get(s, raw)
  {
    var pointer, gone := PointerKey(bucket, key), VersionKey(bucket, key, vid);
    VersionKeyMeans(bucket, key, []);
    DeleteKeepsOrder(s, gone);
    DeleteThenGet(s, gone, raw);
    DeleteThenGet(s, gone, pointer);
    if st != [] && Top(st).versionId == vid {
      DeleteTopIs(s, bucket, key, st, Delete(s, gone));
      DeleteTopGets(bucket, key, st, Delete(s, gone), DeleteVersion(s, bucket, key, vid), raw);
    }
  }

  /** Deleting the current version promotes the one below it, if there is one. */
  function AfterTop(removed: seq<Entry>, bucket: Key, key: Key, st: Stack): seq<Entry>
    requires st != []
  {
    if |st| == 1 then Delete(removed, PointerKey(bucket, key))
    else
      var info := st[|st| - 2].(isLatest := true);
      Put(Put(removed, PointerKey(bucket, key), info), VersionKey(bucket, key, info.versionId), info)
  }

  lemma DeleteTopIs(s: seq<Entry>, bucket: Key, key: Key, st: Stack, removed: seq<Entry>)
    requires Sorted(s) && Represents(s, bucket, key, st) && st != [] && Top(st).versionId != []
    requires removed == Delete(s, VersionKey(bucket, key, Top(st).versionId)) && Sorted(removed)
    requires Get(removed, PointerKey(bucket, key)) == Get(s, PointerKey(bucket, key))
    ensures DeleteVersion(s, bucket, key, Top(st).versionId) == AfterTop(removed, bucket, key, st)
  {
    NewestUncovers(s, bucket, key, st, removed);
  }

  lemma DeleteTopGets(bucket: Key, key: Key, st: Stack, removed: seq<Entry>, t: seq<Entry>, raw: Key)
    requires st != [] && Sorted(removed) && t == AfterTop(removed, bucket, key, st)
    ensures Sorted(t)
    ensures Get(t, raw) ==
              if raw == PointerKey(bucket, key) then PointerOf(st[..|st| - 1])
              else if |st| > 1 && raw == VersionKey(bucket, key, st[|st| - 2].versionId) then PointerOf(st[..|st| - 1])
              else Get(removed, raw)
  {
    if |st| == 1 {
      DeleteKeepsOrder(removed, PointerKey(bucket, key));
      DeleteThenGet(removed, PointerKey(bucket, key), raw);
    } else {
      PromoteGets(removed, bucket, key, st[|st| - 2].(isLatest := true), raw);
    }
  }

  lemma PromoteGets(removed: seq<Entry>, bucket: Key, key: Key, info: ObjectInfo, raw: Key)
    requires Sorted(removed)
    ensures var promoted := Put(Put(removed, PointerKey(bucket, key), info), VersionKey(bucket, key, info.versionId),
            info);
            && Sorted(promoted)
            && Get(promoted, raw) ==
                 if raw == PointerKey(bucket, key)
                    || raw == VersionKey(bucket, key, info.versionId) then Some(info) else Get(removed, raw)
  {
    var pointer := PointerKey(bucket, key);
    PutKeepsOrder(removed, pointer, info);
    PutThenGet(removed, pointer, info, raw);
    var moved := Put(removed, pointer, info);
    PutKeepsOrder(moved, VersionKey(bucket, key, info.versionId), info);
    PutThenGet(moved, VersionKey(bucket, key, info.versionId), info, raw);
  }

  /** The records that removing a version calls for. */
  lemma RecordsAfterRemove(st: Stack, key: Key, vid: Key, v: Key)
    requires IsStack(st, key) && vid != []
    ensures var r := Remove(st, vid);
            RecordOf(r, v) ==
              if v == vid then None
              else if r != [] && v != [] && Top(r).versionId == v then Some(Top(r).(isLatest := true))
              else RecordOf(st, v)
  {
    RemoveIsStack(st, key, vid);
    var r := Remove(st, vid);
    if v == vid || v == [] {
      if v != [] { NoSuchRecord(r, v); }
    } else if Find(st, v) < |st| {
      var j := Find(st, v);
      MemberAt(st, j);
      var i :| 0 <= i < |r| && r[i] == st[j];
      RecordOfMember(r, key, i);
      if j == |st| - 1 {
        assert Top(r) == st[j] by { RemoveKeepsTop(st, key, vid); }
      }
      if i == |r| - 1 {
        assert Top(r) == st[j];
      } else {
        FindIsUnique(r, key, i);
        FindIsUnique(r, key, |r| - 1);
      }
    } else {
      forall x | x in r ensures x.versionId != v {
        var i :| 0 <= i < |st| && st[i] == x;
      }
      NoSuchRecord(r, v);
      if r != [] { MemberAt(r, |r| - 1); }
    }
  }

  lemma RemoveKeepsTop(st: Stack, key: Key, vid: Key)
    requires IsStack(st, key) && st != [] && Top(st).versionId != vid
    ensures Remove(st, vid) != [] && Top(Remove(st, vid)) == Top(st)
  {
    var i := Find(st, vid);
    if i < |st| {
      assert i < |st| - 1;
      assert (st[..i] + st[i + 1..])[|st| - 2] == st[|st| - 1];
    }
  }

  lemma DeleteVersionRefines(s: seq<Entry>, bucket: Key, key: Key, st: Stack, vid: Key)
    requires Sorted(s) && Represents(s, bucket, key, st) && vid != []
    ensures Represents(DeleteVersion(s, bucket, key, vid), bucket, key, Remove(st, vid))
  {
    var t, r, pointer := DeleteVersion(s, bucket, key, vid), Remove(st, vid), PointerKey(bucket, key);
    RemoveIsStack(st, key, vid);
    VersionKeyMeans(bucket, key, []);
    DeleteVersionGets(s, bucket, key, st, vid, pointer);
    if st != [] && Top(st).versionId == vid {
      FindIsUnique(st, key, |st| - 1);
      assert r == st[..|st| - 1];
    } else if st != [] {
      RemoveKeepsTop(st, key, vid);
    }
    assert Get(t, pointer) == PointerOf(r);
    forall v ensures Get(t, VersionKey(bucket, key, v)) == RecordOf(r, v) {
      DeleteVersionGets(s, bucket, key, st, vid, VersionKey(bucket, key, v));
      RecordsAfterRemove(st, key, vid, v);
      if r != [] && v != [] && Top(r).versionId == v && !(st != [] && Top(st).versionId == vid) {
        RecordOfMember(st, key, |st| - 1);
      }
    }
  }

  lemma DeleteAllRefines(s: seq<Entry>, bucket: Key, key: Key)
    requires Sorted(s)
    ensures Represents(DeleteAll(s, bucket, key), bucket, key, [])
  {
    var t := DeleteAll(s, bucket, key);
    VersionKeyMeans(bucket, key, []);
    DeleteAllGets(s, bucket, key, PointerKey(bucket, key));
    forall v ensures Get(t, VersionKey(bucket, key, v)) == RecordOf([], v) {
      DeleteAllGets(s, bucket, key, VersionKey(bucket, key, v));
    }
  }

  // ----- whole runs over many keys -----

  type Histories = map<Key, Stack>

  function StackOf(h: Histories, key: Key): Stack {
    if key in h then h[key] else []
  }

  ghost predicate Refines(s: seq<Entry>, bucket: Key, h: Histories) {
    Sorted(s) && forall key :: 0 !in key ==> Represents(s, bucket, key, StackOf(h, key))
  }

  /** A transaction on the metadata of one key. */
  datatype Op = PutOp(info: ObjectInfo) | DeleteOp(key: Key, versionId: Key)
  {
    function Target(): Key {
      match this
      case PutOp(info) => info.key
      case DeleteOp(key, _) => key
    }
  }

  function Apply(s: seq<Entry>, bucket: Key, op: Op): seq<Entry> {
    match op
    case PutOp(info) => PutMeta(s, bucket, info)
    case DeleteOp(key, vid) => DeleteMeta(s, bucket, key, vid)
  }

  function After(h: Histories, op: Op): Histories {
    match op
    case PutOp(info) => h[info.key := Push(StackOf(h, info.key), info)]
    case DeleteOp(key, vid) => h[key := if vid == [] then [] else Remove(StackOf(h, key), vid)]
  }

  /** Keys are non-empty and free of 0x00; a put is newer than all versions of its key. */
  ghost predicate Allowed(h: Histories, op: Op) {
    && op.Target() != [] && 0 !in op.Target()
    && (op.PutOp? ==> forall x :: x in StackOf(h, op.info.key) ==> x.lastModified < op.info.lastModified)
  }

  /** A transaction touches only records that belong to its key. */
  lemma OtherRecordsStay(s: seq<Entry>, bucket: Key, st: Stack, op: Op, raw: Key)
    requires Sorted(s) && Represents(s, bucket, op.Target(), st)
    requires !Belongs(bucket, op.Target(), raw)
    ensures Get(Apply(s, bucket, op), raw) == Get(s, raw) && Sorted(Apply(s, bucket, op))
  {
    VersionKeyMeans(bucket, op.Target(), raw);
    match op
    case PutOp(info) =>
      PutMetaGets(s, bucket, info, raw);
    case DeleteOp(key, vid) =>
      if vid == [] {
        DeleteAllGets(s, bucket, key, raw);
      } else {
        DeleteVersionGets(s, bucket, key, st, vid, raw);
      }
  }

  lemma OtherKeyStays(s: seq<Entry>, bucket: Key, st: Stack, op: Op, other: Key, st': Stack)
    requires Sorted(s) && Represents(s, bucket, op.Target(), st) && Represents(s, bucket, other, st')
    requires 0 !in op.Target() && 0 !in other && other != op.Target()
    ensures Represents(Apply(s, bucket, op), bucket, other, st')
  {
    var t := Apply(s, bucket, op);
    KeysApart(bucket, other, op.Target(), PointerKey(bucket, other));
    OtherRecordsStay(s, bucket, st, op, PointerKey(bucket, other));
    forall v ensures Get(t, VersionKey(bucket, other, v)) == RecordOf(st', v) {
      VersionKeyMeans(bucket, other, VersionKey(bucket, other, v));
      KeysApart(bucket, other, op.Target(), VersionKey(bucket, other, v));
      OtherRecordsStay(s, bucket, st, op, VersionKey(bucket, other, v));
    }
  }

  /** Every transaction does to the records what the stack operation does to the stacks. */
  lemma StepRefines(s: seq<Entry>, bucket: Key, h: Histories, op: Op)
    requires Refines(s, bucket, h) && Allowed(h, op)
    ensures Refines(Apply(s, bucket, op), bucket, After(h, op))
  {
    TargetRefines(s, bucket, h, op);
    forall other | 0 !in other ensures Represents(Apply(s, bucket, op), bucket, other, StackOf(After(h, op), other)) {
      StepRefinesKey(s, bucket, h, op, other);
    }
  }

  lemma StepRefinesKey(s: seq<Entry>, bucket: Key, h: Histories, op: Op, other: Key)
    requires Refines(s, bucket, h) && Allowed(h, op) && 0 !in other
    ensures Represents(Apply(s, bucket, op), bucket, other, StackOf(After(h, op), other))
  {
    if other == op.Target() {
      TargetRefines(s, bucket, h, op);
    } else {
      assert StackOf(After(h, op), other) == StackOf(h, other);
      OtherKeyStays(s, bucket, StackOf(h, op.Target()), op, other, StackOf(h, other));
    }
  }

  lemma TargetRefines(s: seq<Entry>, bucket: Key, h: Histories, op: Op)
    requires Refines(s, bucket, h) && Allowed(h, op)
    ensures Sorted(Apply(s, bucket, op))
    ensures Represents(Apply(s, bucket, op), bucket, op.Target(), StackOf(After(h, op), op.Target()))
  {
    var st := StackOf(h, op.Target());
    match op
    case PutOp(info) =>
      PutRefines(s, bucket, info.key, st, info);
      PutMetaGets(s, bucket, info, []);
    case DeleteOp(key, vid) =>
      if vid == [] {
        DeleteAllRefines(s, bucket, key);
        DeleteAllGets(s, bucket, key, []);
      } else {
        DeleteVersionRefines(s, bucket, key, st, vid);
        DeleteVersionGets(s, bucket, key, st, vid, []);
      }
  }

  function Run(s: seq<Entry>, bucket: Key, ops: seq<Op>): seq<Entry>
    decreases |ops|
  {
    if ops == [] then s else Run(Apply(s, bucket, ops[0]), bucket, ops[1..])
  }

  function RunAfter(h: Histories, ops: seq<Op>): Histories
    decreases |ops|
  {
    if ops == [] then h else RunAfter(After(h, ops[0]), ops[1..])
  }

  ghost predicate AllAllowed(h: Histories, ops: seq<Op>)
    decreases |ops|
  {
    ops != [] ==> Allowed(h, ops[0]) && AllAllowed(After(h, ops[0]), ops[1..])
  }

  /** Over any run of puts and deletes, the records refine the version stacks. */
  lemma {:induction false} RunRefines(s: seq<Entry>, bucket: Key, h: Histories, ops: seq<Op>)
    requires Refines(s, bucket, h) && AllAllowed(h, ops)
    ensures Refines(Run(s, bucket, ops), bucket, RunAfter(h, ops))
    decreases |ops|
  {
    if ops != [] {
      StepRefines(s, bucket, h, ops[0]);
      RunRefines(Apply(s, bucket, ops[0]), bucket, After(h, ops[0]), ops[1..]);
    }
  }

  /** Transactions on proper keys whose puts carry strictly increasing times. */
  ghost predicate Clocked(ops: seq<Op>, now: int)
    decreases |ops|
  {
    ops != [] ==>
      var op := ops[0];
      && op.Target() != [] && 0 !in op.Target()
      && (op.PutOp? ==> now < op.info.lastModified)
      && Clocked(ops[1..], if op.PutOp? then op.info.lastModified else now)
  }

  ghost predicate NotNewerThan(h: Histories, now: int) {
    forall key, x :: key in h && x in h[key] ==> x.lastModified <= now
  }

  lemma {:induction false} ClockedIsAllowed(h: Histories, ops: seq<Op>, now: int)
    requires NotNewerThan(h, now) && Clocked(ops, now)
    requires forall key :: key in h ==> IsStack(h[key], key)
    ensures AllAllowed(h, ops)
    decreases |ops|
  {
    if ops != [] {
      var op := ops[0];
      var st := StackOf(h, op.Target());
      assert IsStack(st, op.Target());
      match op {
        case PutOp(info) => PushIsStack(st, op.Target(), info);
        case DeleteOp(_, vid) => RemoveIsStack(st, op.Target(), vid);
      }
      ClockedIsAllowed(After(h, op), ops[1..], if op.PutOp? then op.info.lastModified else now);
    }
  }

  /** From the empty bucket on, every run under a strictly increasing clock leaves
      records that spell out, key by key, the versions put and not yet deleted. */
  lemma RunsSpellOutHistories(bucket: Key, ops: seq<Op>, now: int, key: Key)
    requires Clocked(ops, now) && 0 !in key
    ensures Sorted(Run([], bucket, ops))
    ensures Represents(Run([], bucket, ops), bucket, key, StackOf(RunAfter(map[], ops), key))
  {
    ClockedIsAllowed(map[], ops, now);
    RunRefines([], bucket, map[], ops);
  }

  /** Deleting the version just put gives back the very same records, if and only
      if the put replaced nothing: neither an unversioned object nor a version of
      the same id, such as "null". What a put replaces is lost for good. */
  lemma DeleteUndoesPut(s: seq<Entry>, bucket: Key, st: Stack, info: ObjectInfo)
    requires Sorted(s) && Represents(s, bucket, info.key, st) && 0 !in info.key
    requires info.versionId != [] && forall x :: x in st ==> x.lastModified < info.lastModified
    ensures DeleteMeta(PutMeta(s, bucket, info), bucket, info.key, info.versionId) == s
            <==> forall x :: x in st ==> x.versionId != [] && x.versionId != info.versionId
  {
    var u := DeleteMeta(PutMeta(s, bucket, info), bucket, info.key, info.versionId);
    PutThenDelete(s, bucket, st, info);
    if x :| x in st && x.versionId == info.versionId {
      SameIdIsLost(s, u, bucket, st, info);
    } else {
      UndoesUnlessUnversioned(s, u, bucket, st, info);
    }
  }

  lemma SameIdIsLost(s: seq<Entry>, u: seq<Entry>, bucket: Key, st: Stack, info: ObjectInfo)
    requires Represents(s, bucket, info.key, st) && info.versionId != []
    requires exists x :: x in st && x.versionId == info.versionId
    requires forall x :: x in st ==> x.lastModified < info.lastModified
    requires Represents(u, bucket, info.key, Remove(Push(st, info), info.versionId))
    ensures Get(u, VersionKey(bucket, info.key, info.versionId)) != Get(s, VersionKey(bucket, info.key, info.versionId))
  {
    PushIsStack(st, info.key, info);
    RemoveIsStack(Push(st, info), info.key, info.versionId);
    NoSuchRecord(Remove(Push(st, info), info.versionId), info.versionId);
    var x :| x in st && x.versionId == info.versionId;
    var i :| 0 <= i < |st| && st[i] == x;
    assert Find(st, info.versionId) <= i;
  }

  lemma UndoesUnlessUnversioned(s: seq<Entry>, u: seq<Entry>, bucket: Key, st: Stack, info: ObjectInfo)
    requires Sorted(s) && Represents(s, bucket, info.key, st) && 0 !in info.key
    requires info.versionId != [] && forall x ::
               x in st ==> x.lastModified < info.lastModified && x.versionId != info.versionId
    requires u == DeleteMeta(PutMeta(s, bucket, info), bucket, info.key, info.versionId)
    requires Sorted(u) && Represents(u, bucket, info.key, Remove(Push(st, info), info.versionId))
    ensures u == s <==> forall x :: x in st ==> x.versionId != []
  {
    RemoveUndoesPush(st, info.key, info);
    if st != [] && Top(st).versionId == [] {
      MemberAt(st, |st| - 1);
      assert Get(u, PointerKey(bucket, info.key)) == None;
    } else {
      forall raw ensures Get(u, raw) == Get(s, raw) {
        SameRecords(s, u, bucket, st, info, raw);
      }
      SameGetsSameBucket(s, u);
    }
  }

  lemma PutThenDelete(s: seq<Entry>, bucket: Key, st: Stack, info: ObjectInfo)
    requires Sorted(s) && Represents(s, bucket, info.key, st)
    requires info.versionId != [] && forall x :: x in st ==> x.lastModified < info.lastModified
    ensures var u := DeleteMeta(PutMeta(s, bucket, info), bucket, info.key, info.versionId);
            Sorted(u) && Represents(u, bucket, info.key, Remove(Push(st, info), info.versionId))
  {
    var t := PutMeta(s, bucket, info);
    PutRefines(s, bucket, info.key, st, info);
    PutMetaGets(s, bucket, info, []);
    DeleteVersionRefines(t, bucket, info.key, Push(st, info), info.versionId);
    DeleteVersionGets(t, bucket, info.key, Push(st, info), info.versionId, []);
  }

  /** Removing a fresh push uncovers the stack below it. */
  lemma RemoveUndoesPush(st: Stack, key: Key, info: ObjectInfo)
    requires IsStack(st, key) && info.key == key && info.versionId != []
    requires forall x :: x in st ==> x.lastModified < info.lastModified && x.versionId != info.versionId
    ensures Remove(Push(st, info), info.versionId) == if st != [] && Top(st).versionId == [] then [] else st
  {
    if Find(st, info.versionId) < |st| {
      MemberAt(st, Find(st, info.versionId));
      assert false;
    }
    PushIsStack(st, key, info);
    var p := Push(st, info);
    FindIsUnique(p, key, |p| - 1);
    assert p[..|p| - 1] == if st != [] && Top(st).versionId == [] then [] else st;
  }

  lemma SameRecords(s: seq<Entry>, u: seq<Entry>, bucket: Key, st: Stack, info: ObjectInfo, raw: Key)
    requires Sorted(s) && Represents(s, bucket, info.key, st) && info.versionId != []
    requires forall x :: x in st ==> x.lastModified < info.lastModified
    requires u == DeleteMeta(PutMeta(s, bucket, info), bucket, info.key, info.versionId)
    requires Represents(u, bucket, info.key, st)
    ensures Get(u, raw) == Get(s, raw)
  {
    VersionKeyMeans(bucket, info.key, raw);
    if !Belongs(bucket, info.key, raw) {
      PutRefines(s, bucket, info.key, st, info);
      OtherRecordsStay(s, bucket, st, PutOp(info), raw);
      OtherRecordsStay(PutMeta(s, bucket, info), bucket, Push(st, info), DeleteOp(info.key, info.versionId), raw);
    }
  }

  // ----- two runs that lose an object -----

  function Example(versionId: Key, now: int): ObjectInfo {
    ObjectInfo([97], versionId, now, false, false, [], 0)
  }

  /** Put "a" without a version id and again with one, and delete that version. */
  lemma UnversionedIsLost(bucket: Key, id: Key)
    requires id != []
    ensures Get(Run([], bucket, [PutOp(Example([], 1))]), PointerKey(bucket, [97])).Some?
    ensures Get(Run([], bucket, [PutOp(Example([], 1)), PutOp(Example(id, 2)), DeleteOp([97], id)]),
            PointerKey(bucket, [97])) == None
  {
    OnePut(bucket, []);
    PutsThenDelete(bucket, [], id);
  }

  /** Put "a" twice as version "null", as a suspended bucket does, and delete it. */
  lemma ReplacedNullIsLost(bucket: Key, id: Key)
    requires id != []
    ensures Get(Run([], bucket, [PutOp(Example(id, 1))]), PointerKey(bucket, [97])).Some?
    ensures Get(Run([], bucket, [PutOp(Example(id, 1)), PutOp(Example(id, 2)), DeleteOp([97], id)]),
            PointerKey(bucket, [97])) == None
  {
    OnePut(bucket, id);
    PutsThenDelete(bucket, id, id);
  }

  lemma OnePut(bucket: Key, id: Key)
    ensures Get(Run([], bucket, [PutOp(Example(id, 1))]), PointerKey(bucket, [97]))
            == Some(Example(id, 1).(isLatest := true))
  {
    var ops := [PutOp(Example(id, 1))];
    assert ops[1..] == [];
    RunsSpellOutHistories(bucket, ops, 0, [97]);
    assert StackOf(RunAfter(map[], ops), [97]) == [Example(id, 1)];
  }

  lemma PutsThenDelete(bucket: Key, first: Key, id: Key)
    requires id != [] && (first == [] || first == id)
    ensures Get(Run([], bucket, [PutOp(Example(first, 1)), PutOp(Example(id, 2)), DeleteOp([97], id)]),
            PointerKey(bucket, [97])) == None
  {
    var put, again, delete := PutOp(Example(first, 1)), PutOp(Example(id, 2)), DeleteOp([97], id);
    ThreeOps(map[], put, again, delete, 0);
    RunsSpellOutHistories(bucket, [put, again, delete], 0, [97]);
    LastOneGoes(put, again, delete, first, id);
  }

  lemma ThreeOps(h: Histories, a: Op, b: Op, c: Op, now: int)
    requires a.PutOp? && b.PutOp? && c.DeleteOp? && now < a.info.lastModified < b.info.lastModified
    requires a.Target() == b.Target() == c.Target() != [] && 0 !in c.key
    ensures Clocked([a, b, c], now)
    ensures RunAfter(h, [a, b, c]) == After(After(After(h, a), b), c)
  {
    assert [a, b, c][1..] == [b, c] && [b, c][1..] == [c] && [c][1..] == [];
    var t := b.info.lastModified;
    assert Clocked([c], t) && Clocked([b, c], a.info.lastModified);
    assert RunAfter(After(After(h, a), b), [c]) == After(After(After(h, a), b), c);
  }

  lemma LastOneGoes(put: Op, again: Op, delete: Op, first: Key, id: Key)
    requires put == PutOp(Example(first, 1)) && again == PutOp(Example(id, 2)) && delete == DeleteOp([97], id)
    requires id != [] && (first == [] || first == id)
    ensures StackOf(After(After(After(map[], put), again), delete), [97]) == []
  {
    assert Push([], Example(first, 1)) == [Example(first, 1)];
    assert After(map[], put) == map[[97] := [Example(first, 1)]];
    RemoveOnly(Example(first, 1), id);
    RemoveOnly(Example(id, 2), id);
  }

  lemma RemoveOnly(x: ObjectInfo, id: Key)
    ensures Remove([x], id) == if x.versionId == id then [] else [x]
  {
    assert [x][1..] == [];
  }
}
