/** Moving the metadata of all buckets from one database into a database per
    bucket (internal/storage/metadata.go). A run may fail on some records, and
    the process may die at any point; the next start tries again. */
module Migration {
  import opened Keys
  import opened Records

  /** bbolt's buckets "objects" and "multipart". */
  datatype Kind = Objects | Uploads

  /** A legacy record as it is stored: its key, and its value as bytes. */
  datatype Record = Record(raw: Key, value: Key)

  /** A place in some bucket's own database. */
  datatype Slot = Slot(bucket: Key, kind: Kind, raw: Key)

  datatype State = State(objects: Option<seq<Record>>, uploads: Option<seq<Record>>, files: map<Slot, Key>)

  datatype Outcome = Done | Failed | Stopped

  function Rows(table: Option<seq<Record>>): seq<Record> {
    if table.Some? then table.value else []
  }

  /** A key occurs once in a table. */
  predicate Distinct(t: seq<Record>) {
    forall i, j :: 0 <= i < j < |t| ==> t[i].raw != t[j].raw
  }

  ghost predicate WellFormed(s: State) {
    Distinct(Rows(s.objects)) && Distinct(Rows(s.uploads))
  }

  // ----- where a record belongs -----

  function SlotOf(kind: Kind, r: Record): Slot {
    Slot(FirstPart(r.raw), kind, r.raw)
  }

  /** An object record without a separator is passed over. */
  predicate IsMoved(kind: Kind, r: Record) {
    kind == Uploads || 0 in r.raw
  }

  /** What the first `n` rows add to the buckets' databases. */
  function Additions(kind: Kind, t: seq<Record>, n: nat): map<Slot, Key>
    requires n <= |t|
  {
    if n == 0 then map[]
    else if IsMoved(kind, t[n - 1]) then Additions(kind, t, n - 1)[SlotOf(kind, t[n - 1]) := t[n - 1].value]
    else Additions(kind, t, n - 1)
  }

  function Moved(s: State): map<Slot, Key> {
    Additions(Objects, Rows(s.objects), |Rows(s.objects)|) + Additions(Uploads, Rows(s.uploads), |Rows(s.uploads)|)
  }

  /** The state that a run without trouble leaves. */
  function Migrated(s: State): State {
    State(None, None, s.files + Moved(s))
  }

  // ----- one run -----

  /** `after` is `before` with some of the `moved` records written over it. */
  ghost predicate Partly(before: map<Slot, Key>, after: map<Slot, Key>, moved: map<Slot, Key>) {
    before.Keys <= after.Keys <= before.Keys + moved.Keys
    && forall x :: x in after ==> From(before, after, x) || From(moved, after, x)
  }

  predicate From(source: map<Slot, Key>, after: map<Slot, Key>, x: Slot)
    requires x in after
  {
    x in source && after[x] == source[x]
  }

  /** All of the `moved` records are there. */
  ghost predicate Whole(before: map<Slot, Key>, after: map<Slot, Key>, moved: map<Slot, Key>) {
    after == before + moved
  }

  predicate Breaks(kind: Kind, r: Record, broken: set<Slot>) {
    IsMoved(kind, r) && SlotOf(kind, r) in broken
  }

  ghost predicate Fails(kind: Kind, t: seq<Record>, n: nat, broken: set<Slot>)
    requires n <= |t|
  {
    exists i :: 0 <= i < n && Breaks(kind, t[i], broken)
  }

  /** Nothing in the way: every record can be written, and the process lives
      for one transaction per row and the last one that drops the tables. */
  ghost predicate Finishes(s: State, broken: set<Slot>, steps: nat) {
    (s.objects.None? && s.uploads.None?)
    || (!Fails(Objects, Rows(s.objects), |Rows(s.objects)|, broken)
        && !Fails(Uploads, Rows(s.uploads), |Rows(s.uploads)|, broken)
        && steps > |Rows(s.objects)| + |Rows(s.uploads)|)
  }

  /** What a start of the server may do to the databases. */
  ghost predicate Runs(s: State, t: State, broken: set<Slot>, steps: nat) {
    if Finishes(s, broken, steps) then t == Migrated(s)
    else t.objects == s.objects && t.uploads == s.uploads && Partly(s.files, t.files, Moved(s))
  }

  class Databases {
    var objects: Option<seq<Record>>
    var uploads: Option<seq<Record>>
    var files: map<Slot, Key>

    ghost function Contents(): State
      reads this
    {
      State(objects, uploads, files)
    }

    constructor (objects: Option<seq<Record>>, uploads: Option<seq<Record>>, files: map<Slot, Key>)
      ensures Contents() == State(objects, uploads, files)
    {
      this.objects, this.uploads, this.files := objects, uploads, files;
    }

    /** Copies row by row; a row that cannot be written does not stop the rest. */
    method CopyTable(kind: Kind, t: seq<Record>, broken: set<Slot>, steps: nat) returns (failed: bool, left: nat)
      requires Distinct(t)
      modifies this`files
      ensures Partly(old(files), files, Additions(kind, t, |t|))
      ensures steps >= |t| ==> (failed <==> Fails(kind, t, |t|, broken))
      ensures steps >= |t| && !failed ==> Whole(old(files), files, Additions(kind, t, |t|))
      ensures left == if steps < |t| then 0 else steps - |t|
    {
      failed := false;
      var i := 0;
      while i < |t| && i < steps
        invariant i <= |t| && i <= steps
        invariant failed <==> Fails(kind, t, i, broken)
        invariant Partly(old(files), files, Additions(kind, t, i))
        invariant !failed ==> Whole(old(files), files, Additions(kind, t, i))
      {
        ghost var was, next := files, i + 1;
        if IsMoved(kind, t[i]) {
          if SlotOf(kind, t[i]) in broken {
            failed := true;
          } else {
            files := files[SlotOf(kind, t[i]) := t[i].value];
          }
        }
        PartlyStep(old(files), was, files, kind, t, i, next);
        FailsStep(kind, t, i, next, broken);
        if !failed {
          WholeStep(old(files), was, files, kind, t, i, next);
        }
        i := i + 1;
      }
      PartlyGrows(old(files), files, kind, t, i);
      left := if steps < |t| then 0 else steps - |t|;
    }

    method MigrateIfNecessary(broken: set<Slot>, steps: nat) returns (outcome: Outcome)
      requires WellFormed(Contents())
      modifies this
      ensures Runs(old(Contents()), Contents(), broken, steps)
      ensures outcome == Done <==> Finishes(old(Contents()), broken, steps)
    {
      ghost var start, middle := Contents(), files;
      if objects.None? && uploads.None? {
        NothingToDo(start, broken, steps);
        return Done;
      }
      var failed, left := false, steps;
      if objects.Some? {
        failed, left := CopyTable(Objects, objects.value, broken, steps);
        if steps < |objects.value| || failed {
          CutShort(start, middle, files, broken, steps);
          return if steps < |objects.value| then Stopped else Failed;
        }
      } else {
        NoRows(Objects, files, broken);
      }
      middle := files;
      if uploads.Some? {
        var before := left;
        failed, left := CopyTable(Uploads, uploads.value, broken, left);
        if before < |uploads.value| || failed {
          CutShortLater(start, middle, files, broken, steps);
          return if before < |uploads.value| then Stopped else Failed;
        }
      } else {
        NoRows(Uploads, files, broken);
      }
      if left == 0 {
        CutShortLater(start, middle, files, broken, steps);
        return Stopped;
      }
      AllCopied(start, middle, files, broken, steps);
      objects, uploads := None, None;
      return Done;
    }
  }

  // ----- what the rows add -----

  lemma {:induction false} AdditionsMean(kind: Kind, t: seq<Record>, n: nat)
    requires Distinct(t) && n <= |t|
    ensures forall i :: 0 <= i < n && IsMoved(kind, t[i]) ==>
              SlotOf(kind, t[i]) in Additions(kind, t, n) && Additions(kind, t, n)[SlotOf(kind, t[i])] == t[i].value
    ensures forall x :: x in Additions(kind, t, n) ==>
              exists i :: 0 <= i < n && IsMoved(kind, t[i]) && x == SlotOf(kind, t[i])
  {
    if n > 0 {
      AdditionsMean(kind, t, n - 1);
    }
  }

  /** Each row has a place of its own. */
  lemma {:induction false} NewSlot(kind: Kind, t: seq<Record>, i: nat)
    requires Distinct(t) && i < |t|
    ensures SlotOf(kind, t[i]) !in Additions(kind, t, i)
  {
    AdditionsMean(kind, t, i);
  }

  lemma PartlyWith(before: map<Slot, Key>, was: map<Slot, Key>, now: map<Slot, Key>, a: map<Slot, Key>, x: Slot, v: Key)
    requires x !in a && Partly(before, was, a)
    requires now == was || now == was[x := v]
    ensures Partly(before, now, a[x := v])
  {
  }

  lemma {:induction false} PartlyStep(before: map<Slot, Key>, was: map<Slot, Key>, now: map<Slot, Key>, kind: Kind,
                                      t: seq<Record>, i: nat, next: nat)
    requires Distinct(t) && i < |t| && next == i + 1
    requires Partly(before, was, Additions(kind, t, i))
    requires now == was || (IsMoved(kind, t[i]) && now == was[SlotOf(kind, t[i]) := t[i].value])
    ensures Partly(before, now, Additions(kind, t, next))
  {
    if IsMoved(kind, t[i]) {
      var a, x, v := Additions(kind, t, i), SlotOf(kind, t[i]), t[i].value;
      NewSlot(kind, t, i);
      PartlyWith(before, was, now, a, x, v);
    }
  }

  lemma {:induction false} WholeStep(before: map<Slot, Key>, was: map<Slot, Key>, now: map<Slot, Key>, kind: Kind,
                                     t: seq<Record>, i: nat, next: nat)
    requires i < |t| && next == i + 1
    requires Whole(before, was, Additions(kind, t, i))
    requires now == if IsMoved(kind, t[i]) then was[SlotOf(kind, t[i]) := t[i].value] else was
    ensures Whole(before, now, Additions(kind, t, next))
  {
  }

  lemma {:induction false} FailsStep(kind: Kind, t: seq<Record>, i: nat, next: nat, broken: set<Slot>)
    requires i < |t| && next == i + 1
    ensures Fails(kind, t, next, broken) <==> Fails(kind, t, i, broken) || Breaks(kind, t[i], broken)
  {
    if Fails(kind, t, i, broken) {
      var j :| 0 <= j < i && Breaks(kind, t[j], broken);
      assert Breaks(kind, t[j], broken);
    }
    if Breaks(kind, t[i], broken) {
      assert 0 <= i < next;
    }
  }

  lemma {:induction false} PartlyGrows(before: map<Slot, Key>, now: map<Slot, Key>, kind: Kind, t: seq<Record>, i: nat)
    requires Distinct(t) && i <= |t|
    requires Partly(before, now, Additions(kind, t, i))
    ensures Partly(before, now, Additions(kind, t, |t|))
    decreases |t| - i
  {
    if i < |t| {
      PartlyStep(before, now, now, kind, t, i, i + 1);
      PartlyGrows(before, now, kind, t, i + 1);
    }
  }

  /** The two tables never add to the same place. */
  lemma SlotsApart(o: seq<Record>, u: seq<Record>)
    requires Distinct(o) && Distinct(u)
    ensures Additions(Objects, o, |o|).Keys !! Additions(Uploads, u, |u|).Keys
  {
    AdditionsMean(Objects, o, |o|);
    AdditionsMean(Uploads, u, |u|);
  }

  lemma PartlyOfBoth(before: map<Slot, Key>, now: map<Slot, Key>, a: map<Slot, Key>, b: map<Slot, Key>)
    requires a.Keys !! b.Keys && Partly(before, now, a)
    ensures Partly(before, now, a + b)
  {
  }

  lemma PartlyAfter(before: map<Slot, Key>, middle: map<Slot, Key>, now: map<Slot, Key>, a: map<Slot, Key>,
                    b: map<Slot, Key>)
    requires a.Keys !! b.Keys && Whole(before, middle, a) && Partly(middle, now, b)
    ensures Partly(before, now, a + b)
  {
  }

  lemma WholeOfBoth(before: map<Slot, Key>, middle: map<Slot, Key>, now: map<Slot, Key>, a: map<Slot, Key>,
                    b: map<Slot, Key>)
    requires Whole(before, middle, a) && Whole(middle, now, b)
    ensures Whole(before, now, a + b)
  {
  }

  // ----- how a run can end -----

  lemma NothingToDo(s: State, broken: set<Slot>, steps: nat)
    requires s.objects.None? && s.uploads.None?
    ensures Finishes(s, broken, steps) && Migrated(s) == s
  {
  }

  lemma NoRows(kind: Kind, files: map<Slot, Key>, broken: set<Slot>)
    ensures Whole(files, files, Additions(kind, [], 0)) && Partly(files, files, Additions(kind, [], 0))
    ensures !Fails(kind, [], 0, broken)
  {
  }

  lemma CutShort(s: State, before: map<Slot, Key>, now: map<Slot, Key>, broken: set<Slot>, steps: nat)
    requires WellFormed(s) && s.objects.Some? && before == s.files
    requires Partly(before, now, Additions(Objects, Rows(s.objects), |Rows(s.objects)|))
    requires steps < |Rows(s.objects)| || Fails(Objects, Rows(s.objects), |Rows(s.objects)|, broken)
    ensures !Finishes(s, broken, steps) && Runs(s, s.(files := now), broken, steps)
  {
    var o, u := Rows(s.objects), Rows(s.uploads);
    SlotsApart(o, u);
    PartlyOfBoth(before, now, Additions(Objects, o, |o|), Additions(Uploads, u, |u|));
  }

  lemma CutShortLater(s: State, middle: map<Slot, Key>, now: map<Slot, Key>, broken: set<Slot>, steps: nat)
    requires WellFormed(s) && (s.objects.Some? || s.uploads.Some?)
    requires Whole(s.files, middle, Additions(Objects, Rows(s.objects), |Rows(s.objects)|))
    requires Partly(middle, now, Additions(Uploads, Rows(s.uploads), |Rows(s.uploads)|))
    requires steps <= |Rows(s.objects)| + |Rows(s.uploads)|
             || Fails(Uploads, Rows(s.uploads), |Rows(s.uploads)|, broken)
    ensures !Finishes(s, broken, steps) && Runs(s, s.(files := now), broken, steps)
  {
    var o, u := Rows(s.objects), Rows(s.uploads);
    SlotsApart(o, u);
    PartlyAfter(s.files, middle, now, Additions(Objects, o, |o|), Additions(Uploads, u, |u|));
  }

  lemma AllCopied(s: State, middle: map<Slot, Key>, now: map<Slot, Key>, broken: set<Slot>, steps: nat)
    requires Whole(s.files, middle, Additions(Objects, Rows(s.objects), |Rows(s.objects)|))
    requires Whole(middle, now, Additions(Uploads, Rows(s.uploads), |Rows(s.uploads)|))
    requires steps > |Rows(s.objects)| + |Rows(s.uploads)|
    requires !Fails(Objects, Rows(s.objects), |Rows(s.objects)|, broken)
    requires !Fails(Uploads, Rows(s.uploads), |Rows(s.uploads)|, broken)
    ensures Finishes(s, broken, steps) && Migrated(s) == State(None, None, now)
  {
    var o, u := Rows(s.objects), Rows(s.uploads);
    WholeOfBoth(s.files, middle, now, Additions(Objects, o, |o|), Additions(Uploads, u, |u|));
  }

  // ----- where records end up -----

  ghost predicate InTable(s: State, kind: Kind, r: Record) {
    r in Rows(if kind == Objects then s.objects else s.uploads)
  }

  ghost predicate InFile(s: State, kind: Kind, r: Record) {
    SlotOf(kind, r) in s.files && s.files[SlotOf(kind, r)] == r.value
  }

  /** A key made for a bucket, whose name has no 0x00, moves to that bucket. */
  lemma {:induction false} OwnBucket(bucket: Key, raw: Key)
    requires 0 !in bucket && BucketPrefix(bucket) <= raw
    ensures FirstPart(raw) == bucket && 0 in raw
  {
    assert raw[|bucket|] == 0;
    if bucket != [] {
      assert bucket[0] == raw[0];
      OwnBucket(bucket[1..], raw[1..]);
    }
  }

  /** The bucket whose database a row belongs to: what stands before the first 0x00,
      and for an upload without one the whole key. */
  ghost predicate IsHome(kind: Kind, raw: Key, bucket: Key) {
    0 !in bucket && (bucket + [0] <= raw || (kind == Uploads && 0 !in raw && bucket == raw))
  }

  lemma {:induction false} HomeIsFirstPart(kind: Kind, raw: Key, bucket: Key)
    requires IsHome(kind, raw, bucket)
    ensures bucket == FirstPart(raw) && (kind == Uploads || 0 in raw)
  {
    if bucket + [0] <= raw {
      OwnBucket(bucket, raw);
    } else {
      FirstPartMeans(raw);
    }
  }

  lemma MovedHasHome(kind: Kind, r: Record)
    requires IsMoved(kind, r)
    ensures IsHome(kind, r.raw, FirstPart(r.raw))
  {
    FirstPartMeans(r.raw);
    var k := FirstPart(r.raw);
    if |k| < |r.raw| {
      assert r.raw[..|k| + 1] == k + [0];
    }
  }

  /** A finished run puts every row that has a bucket to go to into the database of
      that bucket, under its key and with its value ... */
  lemma RowsComeHome(s: State, kind: Kind, r: Record, bucket: Key)
    requires WellFormed(s) && IsHome(kind, r.raw, bucket)
    requires kind == Objects ==> s.objects.Some? && r in s.objects.value
    requires kind == Uploads ==> s.uploads.Some? && r in s.uploads.value
    ensures Slot(bucket, kind, r.raw) in Migrated(s).files && Migrated(s).files[Slot(bucket, kind, r.raw)] == r.value
  {
    HomeIsFirstPart(kind, r.raw, bucket);
    MigratedMeans(s);
    assert InTable(s, kind, r) && IsMoved(kind, r);
    assert InFile(Migrated(s), kind, r);
  }

  /** ... and whatever it adds or changes is such a row. */
  lemma OnlyRowsCome(s: State, x: Slot)
    requires WellFormed(s) && x in Migrated(s).files
    requires x !in s.files || s.files[x] != Migrated(s).files[x]
    ensures IsHome(x.kind, x.raw, x.bucket)
    ensures if x.kind == Objects then s.objects.Some? && Record(x.raw, Migrated(s).files[x]) in s.objects.value
            else s.uploads.Some? && Record(x.raw, Migrated(s).files[x]) in s.uploads.value
  {
    MigratedMeans(s);
    var kind, r :| InTable(s, kind, r) && IsMoved(kind, r) && x == SlotOf(kind, r);
    MovedHasHome(kind, r);
    assert InFile(Migrated(s), kind, r);
  }

  /** What an undisturbed run leaves: each record of the old tables with a bucket
      to go to is in that bucket's database, unchanged, and nothing else differs. */
  lemma MigratedMeans(s: State)
    requires WellFormed(s)
    ensures forall kind, r :: InTable(s, kind, r) && IsMoved(kind, r) ==> InFile(Migrated(s), kind, r)
    ensures forall x :: x in Migrated(s).files ==>
              (x in s.files && Migrated(s).files[x] == s.files[x])
              || exists kind, r :: InTable(s, kind, r) && IsMoved(kind, r) && x == SlotOf(kind, r)
    ensures s.files.Keys <= Migrated(s).files.Keys
  {
    var o, u := Rows(s.objects), Rows(s.uploads);
    AdditionsMean(Objects, o, |o|);
    AdditionsMean(Uploads, u, |u|);
    SlotsApart(o, u);
    forall kind, r | InTable(s, kind, r) && IsMoved(kind, r) ensures InFile(Migrated(s), kind, r) {
      var t := if kind == Objects then o else u;
      var i :| 0 <= i < |t| && t[i] == r;
    }
    forall x | x in Moved(s) ensures exists kind, r :: InTable(s, kind, r) && IsMoved(kind, r) && x == SlotOf(kind, r) {
      var kind := if x in Additions(Uploads, u, |u|) then Uploads else Objects;
      var t := if kind == Objects then o else u;
      var i :| 0 <= i < |t| && IsMoved(kind, t[i]) && x == SlotOf(kind, t[i]);
      assert InTable(s, kind, t[i]);
    }
  }

  // ----- any number of runs -----

  ghost predicate Start(s: State, t: State) {
    exists broken, steps :: Runs(s, t, broken, steps)
  }

  /** The states between the starts of the server, the first one before any. */
  ghost predicate Starts(states: seq<State>) {
    states != [] && forall i :: 0 < i < |states| ==> Start(states[i - 1], states[i])
  }

  /** Either everything is done, or the old tables are all there still. */
  ghost predicate OnTheWay(s: State, t: State) {
    t == Migrated(s)
    || (t.objects == s.objects && t.uploads == s.uploads && Partly(s.files, t.files, Moved(s)))
  }

  lemma StartKeepsOnTheWay(s: State, t: State, u: State)
    requires OnTheWay(s, t) && Start(t, u)
    ensures OnTheWay(s, u)
  {
    var broken, steps :| Runs(t, u, broken, steps);
    if t == Migrated(s) {
      assert Moved(t) == map[];
      assert u == Migrated(s);
    } else if Finishes(t, broken, steps) {
      assert Moved(t) == Moved(s);
      PartlyEndsAlike(s.files, t.files, Moved(s));
    } else {
      assert Moved(t) == Moved(s);
      PartlyTwice(s.files, t.files, u.files, Moved(s));
    }
  }

  lemma PartlyTwice(before: map<Slot, Key>, middle: map<Slot, Key>, now: map<Slot, Key>, a: map<Slot, Key>)
    requires Partly(before, middle, a) && Partly(middle, now, a)
    ensures Partly(before, now, a)
  {
  }

  /** Whatever failed and wherever the process died before: a run that gets through
      leaves the very state that one undisturbed run would have left. */
  lemma {:induction false} RerunsConverge(states: seq<State>)
    requires Starts(states)
    ensures OnTheWay(states[0], states[|states| - 1])
    ensures Migrated(states[|states| - 1]) == Migrated(states[0])
  {
    var s, t := states[0], states[|states| - 1];
    if |states| == 1 {
      StaysOnTheWay(s);
    } else {
      var before := states[..|states| - 1];
      assert forall i :: 0 <= i < |before| ==> before[i] == states[i];
      RerunsConverge(before);
      StartKeepsOnTheWay(s, before[|before| - 1], t);
    }
    SameEnd(s, t);
  }

  lemma StaysOnTheWay(s: State)
    ensures OnTheWay(s, s)
  {
  }

  lemma SameEnd(s: State, t: State)
    requires OnTheWay(s, t)
    ensures Migrated(t) == Migrated(s)
  {
    if t == Migrated(s) {
      assert Moved(t) == map[];
    } else {
      assert Moved(t) == Moved(s);
      PartlyEndsAlike(s.files, t.files, Moved(s));
    }
  }

  lemma PartlyEndsAlike(before: map<Slot, Key>, now: map<Slot, Key>, a: map<Slot, Key>)
    requires Partly(before, now, a)
    ensures now + a == before + a
  {
  }

  /** At no time is a record in neither place, if it has a bucket to go to. An
      object record without a separator is gone after the first undisturbed run,
      unless a database holds it already. */
  lemma SurvivesIffMoved(s: State, kind: Kind, r: Record)
    requires WellFormed(s) && InTable(s, kind, r) && !InFile(s, kind, r)
    ensures IsMoved(kind, r) <==>
              forall t :: OnTheWay(s, t) ==> InTable(t, kind, r) || InFile(t, kind, r)
  {
    MigratedMeans(s);
    if !IsMoved(kind, r) {
      var t := Migrated(s);
      assert OnTheWay(s, t) && !InTable(t, kind, r);
      assert forall k, q :: IsMoved(k, q) ==> SlotOf(kind, r) != SlotOf(k, q);
    }
  }
}
