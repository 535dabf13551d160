/** What a lifecycle rule leaves when all that has expired fits in one batch. */
module LifecycleBatches {
  import opened Keys
  import opened Records
  import opened VersionHistory
  import opened VersionStack
  import opened Versioning
  import opened Lifecycle
  import ObjectListing
  import StackListing
  import VersionListing

  // ----- what the two searches find -----

  predicate IsExpired(bucket: Key, e: Entry, rule: Rule, now: int) {
    IsPointer(bucket, e) && Expired(e.info, rule.prefix, rule.days, now)
  }

  /** All entries from `pos` to `i` are records of the bucket. */
  lemma InBucketUpTo(s: seq<Entry>, bucket: Key, pos: nat, i: nat)
    requires Sorted(s) && Seek(s, BucketPrefix(bucket)) <= pos <= i < |s| && BucketPrefix(bucket) <= s[i].raw
    ensures BucketPrefix(bucket) <= s[pos].raw
  {
    var p := BucketPrefix(bucket);
    SeekSplits(s, p);
    LessIrreflexive(p);
    LessIrreflexive(s[i].raw);
    if pos < i {
      LessAsymmetric(s[pos].raw, s[i].raw);
    }
    PrefixIsConvex(p, p, s[pos].raw, s[i].raw);
  }

  lemma {:induction false} ExpiredFromMeans(s: seq<Entry>, bucket: Key, rule: Rule, now: int, pos: nat, room: nat)
    requires Sorted(s) && Seek(s, BucketPrefix(bucket)) <= pos
    ensures forall x :: x in ExpiredFrom(s, bucket, rule, now, pos, room) ==>
              exists i :: pos <= i < |s| && IsExpired(bucket, s[i], rule, now) && s[i].info == x
    ensures |ExpiredFrom(s, bucket, rule, now, pos, room)| < room ==>
              forall i :: pos <= i < |s| && IsExpired(bucket, s[i], rule, now)
                  ==> s[i].info in ExpiredFrom(s, bucket, rule, now, pos, room)
    decreases |s| - pos
  {
    if pos < |s| && BucketPrefix(bucket) <= s[pos].raw && room > 0 {
      ExpiredFromMeans(s, bucket, rule, now, pos + 1, if IsExpired(bucket, s[pos], rule, now) then room - 1 else room);
    } else {
      forall i | pos <= i < |s| && IsExpired(bucket, s[i], rule, now) ensures BucketPrefix(bucket) <= s[pos].raw {
        InBucketUpTo(s, bucket, pos, i);
      }
    }
  }

  lemma {:induction false} StaleFromMeans(s: seq<Entry>, bucket: Key, rule: Rule, now: int, pos: nat, room: nat)
    requires Sorted(s) && Seek(s, BucketPrefix(bucket)) <= pos
    ensures forall x :: x in StaleFrom(s, bucket, rule, now, pos, room) ==>
              exists i :: pos <= i < |s| && IsStaleRecord(bucket, s[i], rule, now) && s[i].info == x
    ensures |StaleFrom(s, bucket, rule, now, pos, room)| < room ==>
              forall i :: pos <= i < |s| && IsStaleRecord(bucket, s[i], rule, now)
                  ==> s[i].info in StaleFrom(s, bucket, rule, now, pos, room)
    decreases |s| - pos
  {
    if pos < |s| && BucketPrefix(bucket) <= s[pos].raw && room > 0 {
      StaleFromMeans(s, bucket, rule, now, pos + 1, if IsStaleRecord(bucket, s[pos], rule, now) then room - 1
          else room);
    } else {
      forall i | pos <= i < |s| && IsStaleRecord(bucket, s[i], rule, now) ensures BucketPrefix(bucket) <= s[pos].raw {
        InBucketUpTo(s, bucket, pos, i);
      }
    }
  }

  lemma BehindBucketStart(s: seq<Entry>, bucket: Key, i: nat)
    requires Sorted(s) && i < |s| && BucketPrefix(bucket) <= s[i].raw
    ensures Seek(s, BucketPrefix(bucket)) <= i
  {
    SeekSplits(s, BucketPrefix(bucket));
    PrefixNotAbove(BucketPrefix(bucket), s[i].raw);
  }

  // ----- purging -----

  ghost predicate Shrinks(h: Histories, g: Histories) {
    forall key, y :: y in StackOf(g, key) ==> y in StackOf(h, key)
  }

  ghost predicate HasVersionOf(g: Histories, x: ObjectInfo) {
    exists y :: y in StackOf(g, x.key) && y.versionId == x.versionId
  }

  ghost predicate StacksOf(h: Histories, xs: seq<ObjectInfo>) {
    forall i :: 0 <= i < |xs| ==> IsStack(StackOf(h, xs[i].key), xs[i].key)
  }

  lemma PurgeOne(h: Histories, x: ObjectInfo, g: Histories)
    requires IsStack(StackOf(h, x.key), x.key) && x.versionId != [] && g == After(h, DeleteOp(x.key, x.versionId))
    ensures Shrinks(h, g) && !HasVersionOf(g, x) && IsStack(StackOf(g, x.key), x.key)
    ensures forall key :: key != x.key ==> StackOf(g, key) == StackOf(h, key)
  {
    RemoveIsStack(StackOf(h, x.key), x.key, x.versionId);
    assert StackOf(g, x.key) == Remove(StackOf(h, x.key), x.versionId);
    assert forall key :: key != x.key ==> StackOf(g, key) == StackOf(h, key);
  }

  /** Purged versions are gone, and nothing has come. */
  lemma {:induction false} PurgedAreGone(h: Histories, xs: seq<ObjectInfo>)
    requires StacksOf(h, xs) && forall x :: x in xs ==> x.versionId != []
    ensures Shrinks(h, AfterPurges(h, xs)) && forall x :: x in xs ==> !HasVersionOf(AfterPurges(h, xs), x)
    decreases |xs|
  {
    if xs != [] {
      var g := After(h, DeleteOp(xs[0].key, xs[0].versionId));
      PurgeOne(h, xs[0], g);
      assert forall i :: 0 <= i < |xs[1..]| ==> xs[1..][i] == xs[i + 1];
      PurgedAreGone(g, xs[1..]);
    }
  }

  /** A history record that is not latest stands for a version below the top. */
  lemma StaleIsBelowTop(s: seq<Entry>, bucket: Key, h: Histories, rule: Rule, now: int, i: nat) returns (j: nat)
    requires Refines(s, bucket, h) && i < |s| && IsStaleRecord(bucket, s[i], rule, now)
    ensures var st := StackOf(h, s[i].info.key);
            0 !in s[i].info.key && j < |st| - 1 && s[i].info == st[j] && IsStack(st, s[i].info.key)
  {
    var key := VersionListing.KeyPart(bucket, s[i].raw);
    StackListing.RawOfRecord(bucket, s[i].raw);
    j := StackListing.RecordShows(s, bucket, h, i);
    assert Represents(s, bucket, key, StackOf(h, key));
  }

  /** A version below the top has a history record. */
  lemma BelowTopIsStale(s: seq<Entry>, bucket: Key, h: Histories, rule: Rule, now: int, key: Key, k: nat)
      returns (i: nat)
    requires Refines(s, bucket, h) && 0 !in key && k < |StackOf(h, key)| - 1
    requires Expired(StackOf(h, key)[k], rule.prefix, rule.noncurrentDays, now)
    ensures i < |s| && IsStaleRecord(bucket, s[i], rule, now) && s[i].info == StackOf(h, key)[k]
  {
    var st := StackOf(h, key);
    assert Represents(s, bucket, key, st);
    i := StackListing.VersionHasRecord(s, bucket, key, st, k);
    if IsPointer(bucket, s[i]) {
      StackListing.RawOfRecord(bucket, s[i].raw);
      StackListing.KeyPartOf(bucket, key, []);
      PointerIsTop(s, bucket, h, i);
    }
  }

  lemma PointerIsTop(s: seq<Entry>, bucket: Key, h: Histories, i: nat)
    requires Refines(s, bucket, h) && i < |s| && IsPointer(bucket, s[i])
    ensures s[i].info.isLatest
  {
    var key := ObjectListing.ObjectKey(bucket, s[i].raw);
    assert s[i].raw == PointerKey(bucket, key);
    GetMeans(s, s[i].raw);
    assert Represents(s, bucket, key, StackOf(h, key));
  }

  /** If all the expired noncurrent versions fit in a batch, a second look finds none. */
  lemma PurgeTakesAllThatFit(s: seq<Entry>, bucket: Key, status: Status, h: Histories, rule: Rule, now: int,
                             w: World, n: nat)
    requires Refines(s, bucket, h) && [] !in h && Later(h, w, n) && rule.enabled && Proper(w)
    requires |Noncurrent(s, bucket, rule, now)| < MAX_BATCH
    ensures Noncurrent(PurgeDue(s, bucket, status, rule, now, w, n), bucket, rule, now) == []
  {
    if rule.noncurrentDays > 0 {
      var t := PurgeDue(s, bucket, status, rule, now, w, n);
      var g, next := PurgeKeepsCurrent(s, bucket, status, h, rule, now, w, n);
      StaleAreStale(s, bucket, h, rule, now, Seek(s, BucketPrefix(bucket)), MAX_BATCH);
      AreStacks(s, bucket, h, Noncurrent(s, bucket, rule, now), rule, now);
      PurgedAreGone(h, Noncurrent(s, bucket, rule, now));
      if Noncurrent(t, bucket, rule, now) != [] {
        StaleFromMeans(t, bucket, rule, now, Seek(t, BucketPrefix(bucket)), MAX_BATCH);
        assert Noncurrent(t, bucket, rule, now)[0] in Noncurrent(t, bucket, rule, now);
        var i :| 0 <= i < |t| && IsStaleRecord(bucket, t[i], rule, now);
        StaleWasStale(s, t, bucket, h, g, rule, now, i);
      }
    }
  }

  /** What is stale afterwards was stale before. */
  lemma StaleWasStale(s: seq<Entry>, t: seq<Entry>, bucket: Key, h: Histories, g: Histories, rule: Rule, now: int,
                      i: nat)
    requires Refines(s, bucket, h) && Refines(t, bucket, g) && SameTops(h, g) && Shrinks(h, g)
    requires rule.noncurrentDays > 0 && |Noncurrent(s, bucket, rule, now)| < MAX_BATCH
    requires i < |t| && IsStaleRecord(bucket, t[i], rule, now)
    ensures t[i].info in Noncurrent(s, bucket, rule, now) && HasVersionOf(g, t[i].info)
  {
    var j := StaleIsBelowTop(t, bucket, g, rule, now, i);
    var y := t[i].info;
    var st, left := StackOf(h, y.key), StackOf(g, y.key);
    assert y in left && y != Top(left);
    var k :| 0 <= k < |st| && st[k] == y;
    assert st[k] != Top(st);
    var m := BelowTopIsStale(s, bucket, h, rule, now, y.key, k);
    BehindBucketStart(s, bucket, m);
    StaleFromMeans(s, bucket, rule, now, Seek(s, BucketPrefix(bucket)), MAX_BATCH);
  }

  lemma AreStacks(s: seq<Entry>, bucket: Key, h: Histories, xs: seq<ObjectInfo>, rule: Rule, now: int)
    requires Refines(s, bucket, h) && AllStale(h, xs, rule, now)
    ensures StacksOf(h, xs) && forall x :: x in xs ==> x.versionId != []
  {
    forall i | 0 <= i < |xs| ensures IsStack(StackOf(h, xs[i].key), xs[i].key) && xs[i].versionId != [] {
      assert IsStale(h, xs[i], rule, now);
      assert Represents(s, bucket, xs[i].key, StackOf(h, xs[i].key));
    }
  }

  // ----- expiring -----

  /** The key has no current version, or its current version is a delete marker. */
  predicate Hidden(h: Histories, key: Key) {
    StackOf(h, key) == [] || Top(StackOf(h, key)).isDeleteMarker
  }

  /** The expired delete marker is all that there is of its key. */
  predicate IsLoneMarker(h: Histories, x: ObjectInfo) {
    x.isDeleteMarker && x.versionId != [] && |StackOf(h, x.key)| == 1
  }

  lemma NoOther(s: seq<Entry>, bucket: Key, h: Histories, x: ObjectInfo)
    requires Refines(s, bucket, h) && 0 !in x.key && |StackOf(h, x.key)| == 1 && StackOf(h, x.key)[0] == Plain(x)
    ensures !HasOther(s, bucket, x.key, x.versionId)
  {
    if i :| 0 <= i < |s| && Belongs(bucket, x.key, s[i].raw) && s[i].info.versionId != x.versionId {
      VersionKeyMeans(bucket, x.key, s[i].raw);
      StackListing.KeyPartOf(bucket, x.key, []);
      if HistoryPrefix(bucket, x.key) <= s[i].raw {
        var v :| s[i].raw == VersionKey(bucket, x.key, v);
        StackListing.KeyPartOf(bucket, x.key, v);
      }
      var j := StackListing.RecordShows(s, bucket, h, i);
    }
  }

  /** Expiring a current version hides its key; a lone delete marker goes altogether. */
  lemma ExpiredIsHidden(s: seq<Entry>, bucket: Key, status: Status, h: Histories, x: ObjectInfo, w: World, n: nat,
                        rule: Rule, now: int)
    requires Refines(s, bucket, h) && IsDue(h, x, rule, now) && Proper(w)
    ensures var g := AfterMaybe(h, ExpireOp(s, bucket, status, x, w, n));
            && Hidden(g, x.key) && (IsLoneMarker(h, x) ==> StackOf(g, x.key) == [])
            && forall key :: key != x.key ==> StackOf(g, key) == StackOf(h, key)
  {
    if !x.isDeleteMarker {
      DeletedIsHidden(s, bucket, status, h, x, w, n, rule, now);
    } else if |StackOf(h, x.key)| == 1 {
      LoneMarkerGoes(s, bucket, status, h, x, w, n, rule, now);
    } else {
      assert Represents(s, bucket, x.key, StackOf(h, x.key));
      OthersLeft(s, bucket, h, x);
    }
  }

  lemma DeletedIsHidden(s: seq<Entry>, bucket: Key, status: Status, h: Histories, x: ObjectInfo, w: World, n: nat,
                        rule: Rule, now: int)
    requires Refines(s, bucket, h) && IsDue(h, x, rule, now) && Proper(w) && !x.isDeleteMarker
    ensures var g := AfterMaybe(h, ExpireOp(s, bucket, status, x, w, n));
            Hidden(g, x.key) && forall key :: key != x.key ==> StackOf(g, key) == StackOf(h, key)
  {
    assert Represents(s, bucket, x.key, StackOf(h, x.key));
  }

  lemma LoneMarkerGoes(s: seq<Entry>, bucket: Key, status: Status, h: Histories, x: ObjectInfo, w: World, n: nat,
                       rule: Rule, now: int)
    requires Refines(s, bucket, h) && IsDue(h, x, rule, now) && Proper(w)
    requires x.isDeleteMarker && |StackOf(h, x.key)| == 1
    ensures var g := AfterMaybe(h, ExpireOp(s, bucket, status, x, w, n));
            && Hidden(g, x.key) && (IsLoneMarker(h, x) ==> StackOf(g, x.key) == [])
            && forall key :: key != x.key ==> StackOf(g, key) == StackOf(h, key)
  {
    assert Represents(s, bucket, x.key, StackOf(h, x.key));
    NoOther(s, bucket, h, x);
    OnlyOneGoes(StackOf(h, x.key), x.versionId);
  }

  lemma OnlyOneGoes(st: Stack, id: Key)
    requires |st| == 1 && st[0].versionId == id
    ensures Remove(st, id) == []
  {
  }

  /** Where another version is left the delete marker stays. */
  lemma OthersLeft(s: seq<Entry>, bucket: Key, h: Histories, x: ObjectInfo)
    requires Refines(s, bucket, h) && 0 !in x.key && |StackOf(h, x.key)| > 1 && Top(StackOf(h, x.key)) == Plain(x)
    ensures HasOther(s, bucket, x.key, x.versionId)
  {
    var st := StackOf(h, x.key);
    assert Represents(s, bucket, x.key, st);
    var i := StackListing.VersionHasRecord(s, bucket, x.key, st, 0);
    StackListing.RawOfRecord(bucket, s[i].raw);
    VersionKeyMeans(bucket, x.key, s[i].raw);
    assert Belongs(bucket, x.key, s[i].raw);
  }

  ghost predicate Untouched(xs: seq<ObjectInfo>, key: Key) {
    forall i :: 0 <= i < |xs| ==> xs[i].key != key
  }

  ghost predicate AllHidden(h: Histories, g: Histories, xs: seq<ObjectInfo>) {
    && (forall i :: 0 <= i < |xs| ==> Hidden(g, xs[i].key) && (IsLoneMarker(h, xs[i]) ==> StackOf(g, xs[i].key) == []))
    && forall key :: Untouched(xs, key) ==> StackOf(g, key) == StackOf(h, key)
  }

  lemma HiddenInFront(h: Histories, g: Histories, g': Histories, xs: seq<ObjectInfo>)
    requires xs != [] && AllHidden(g, g', xs[1..]) && forall i, j :: 0 <= i < j < |xs| ==> xs[i].key != xs[j].key
    requires Hidden(g, xs[0].key) && (IsLoneMarker(h, xs[0]) ==> StackOf(g, xs[0].key) == [])
    requires forall key :: key != xs[0].key ==> StackOf(g, key) == StackOf(h, key)
    ensures AllHidden(h, g', xs)
  {
    assert Untouched(xs[1..], xs[0].key);
    forall i | 0 < i < |xs|
      ensures Hidden(g', xs[i].key) && (IsLoneMarker(h, xs[i]) ==> StackOf(g', xs[i].key) == [])
    {
      assert xs[1..][i - 1] == xs[i];
    }
    forall key | Untouched(xs, key) ensures StackOf(g', key) == StackOf(h, key) {
      assert xs[0].key != key;
      assert Untouched(xs[1..], key);
    }
  }

  /** ... and all of them. */
  lemma {:induction false} ExpiredAreHidden(s: seq<Entry>, bucket: Key, status: Status, h: Histories,
                                            xs: seq<ObjectInfo>, w: World, n: nat, rule: Rule, now: int)
    requires Refines(s, bucket, h) && Later(h, w, n) && AllDue(h, xs, rule, now) && [] !in h && Proper(w)
    ensures AllHidden(h, AfterExpiries(s, bucket, status, h, xs, w, n), xs)
    decreases |xs|
  {
    if xs != [] {
      var g := ExpireOneKeeps(s, bucket, status, h, xs[0], w, n, rule, now);
      ExpiredIsHidden(s, bucket, status, h, xs[0], w, n, rule, now);
      OthersStayDue(h, g, xs, rule, now);
      var t := Applied(s, bucket, ExpireOp(s, bucket, status, xs[0], w, n));
      ExpiredAreHidden(t, bucket, status, g, xs[1..], w, n + 1, rule, now);
      HiddenInFront(h, g, AfterExpiries(t, bucket, status, g, xs[1..], w, n + 1), xs);
    }
  }

  /** A pointer shows the top of its key's stack. */
  lemma PointerShowsTop(s: seq<Entry>, bucket: Key, h: Histories, i: nat) returns (key: Key)
    requires Refines(s, bucket, h) && i < |s| && IsPointer(bucket, s[i])
    ensures 0 !in key && StackOf(h, key) != [] && s[i].info == Top(StackOf(h, key)).(isLatest := true)
            && s[i].info.key == key
  {
    key := ObjectListing.ObjectKey(bucket, s[i].raw);
    assert s[i].raw == PointerKey(bucket, key);
    GetMeans(s, s[i].raw);
    assert Represents(s, bucket, key, StackOf(h, key));
  }

  lemma TopHasPointer(s: seq<Entry>, bucket: Key, h: Histories, key: Key) returns (i: nat)
    requires Refines(s, bucket, h) && 0 !in key && StackOf(h, key) != []
    ensures i < |s| && IsPointer(bucket, s[i]) && s[i].info == Top(StackOf(h, key)).(isLatest := true)
  {
    var raw := PointerKey(bucket, key);
    assert Represents(s, bucket, key, StackOf(h, key));
    GetMeans(s, raw);
    i :| 0 <= i < |s| && s[i] == Entry(raw, Get(s, raw).value);
    assert ObjectListing.ObjectKey(bucket, raw) == key;
  }

  /** Neither search finds more than a batch. */
  lemma BatchesAreBounded(s: seq<Entry>, bucket: Key, rule: Rule, now: int)
    ensures |Current(s, bucket, rule, now)| <= 10000 && |Noncurrent(s, bucket, rule, now)| <= 10000
  {
    ExpiredFitRoom(s, bucket, rule, now, Seek(s, BucketPrefix(bucket)), MAX_BATCH);
    StaleFitRoom(s, bucket, rule, now, Seek(s, BucketPrefix(bucket)), MAX_BATCH);
  }

  lemma {:induction false} ExpiredFitRoom(s: seq<Entry>, bucket: Key, rule: Rule, now: int, pos: nat, room: nat)
    ensures |ExpiredFrom(s, bucket, rule, now, pos, room)| <= room
    decreases |s| - pos
  {
    if pos < |s| && room > 0 {
      ExpiredFitRoom(s, bucket, rule, now, pos + 1, if IsExpired(bucket, s[pos], rule, now) then room - 1 else room);
    }
  }

  lemma {:induction false} StaleFitRoom(s: seq<Entry>, bucket: Key, rule: Rule, now: int, pos: nat, room: nat)
    ensures |StaleFrom(s, bucket, rule, now, pos, room)| <= room
    decreases |s| - pos
  {
    if pos < |s| && BucketPrefix(bucket) <= s[pos].raw && room > 0 {
      StaleFitRoom(s, bucket, rule, now, pos + 1, if IsStaleRecord(bucket, s[pos], rule, now) then room - 1 else room);
    }
  }

  /** After a rule whose expired current versions fit in a batch, a second look for
      them finds delete markers only, and the lone ones of before are gone; and if the
      noncurrent versions fit as well, none of them is found any more. */
  lemma RuleTakesAllThatFit(s: seq<Entry>, bucket: Key, status: Status, h: Histories, rule: Rule, now: int, w: World,
                            n: nat)
    requires Refines(s, bucket, h) && [] !in h && Later(h, w, n) && rule.enabled && Proper(w)
    requires |Current(s, bucket, rule, now)| < 10000
    ensures var t := SweepRule(s, bucket, status, rule, now, w, n);
            && (forall x :: x in Current(t, bucket, rule, now) ==> x.isDeleteMarker)
            && (forall x :: x in Current(s, bucket, rule, now) && IsLoneMarker(h, x) ==>
                 Get(t, PointerKey(bucket, x.key)) == None)
    ensures |Noncurrent(ExpireDue(s, bucket, status, rule, now, w, n), bucket, rule, now)| < 10000 ==>
              Noncurrent(SweepRule(s, bucket, status, rule, now, w, n), bucket, rule, now) == []
  {
    var g, m := ExpireDueKeeps(s, bucket, status, h, rule, now, w, n);
    var mid := ExpireDue(s, bucket, status, rule, now, w, n);
    var g', next := PurgeKeepsCurrent(mid, bucket, status, g, rule, now, w, m);
    var t := SweepRule(s, bucket, status, rule, now, w, n);
    CurrentAreDue(s, bucket, h, rule, now);
    ExpiredAreHidden(s, bucket, status, h, Current(s, bucket, rule, now), w, n, rule, now);
    if |Noncurrent(mid, bucket, rule, now)| < MAX_BATCH {
      PurgeTakesAllThatFit(mid, bucket, status, g, rule, now, w, m);
    }
    OnlyMarkersAgain(s, t, bucket, h, g, g', rule, now);
    LoneMarkersGone(t, bucket, h, g, g', Current(s, bucket, rule, now), rule, now);
  }

  /** What is due for expiration: the object has the rule's prefix and is older than its days. */
  predicate IsOverdue(x: ObjectInfo, rule: Rule, now: int) {
    rule.prefix <= x.key && now - x.lastModified > rule.days * 86400_000_000_000
  }

  /** The key's current version is as it was, or the key is hidden. */
  ghost predicate TopStays(h: Histories, g: Histories, key: Key) {
    Hidden(g, key) || (StackOf(h, key) != [] && StackOf(g, key) != [] && Top(StackOf(g, key)) == Top(StackOf(h, key)))
  }

  /** What one rule does to one key: nothing to its current version, or it hides the
      key; the latter if the current version is overdue and the batch is not full. */
  lemma RuleOnKey(s: seq<Entry>, bucket: Key, status: Status, h: Histories, rule: Rule, now: int, w: World, n: nat,
                  key: Key)
      returns (g': Histories, next: nat)
    requires Refines(s, bucket, h) && [] !in h && Later(h, w, n) && Proper(w) && 0 !in key
    ensures Refines(SweepRule(s, bucket, status, rule, now, w, n), bucket, g') && [] !in g' && Later(g', w, next)
    ensures next == AfterRule(s, bucket, status, rule, now, w, n) && TopStays(h, g', key)
    ensures rule.enabled && !Untouched(Current(s, bucket, rule, now), key) ==> Hidden(g', key)
  {
    if !rule.enabled {
      g', next := h, n;
    } else {
      var g, m := ExpireDueKeeps(s, bucket, status, h, rule, now, w, n);
      var mid := ExpireDue(s, bucket, status, rule, now, w, n);
      g', next := PurgeKeepsCurrent(mid, bucket, status, g, rule, now, w, m);
      CurrentAreDue(s, bucket, h, rule, now);
      var xs := Current(s, bucket, rule, now);
      ExpiredAreHidden(s, bucket, status, h, xs, w, n, rule, now);
      TouchedIsHidden(h, g, g', xs, key);
    }
  }

  lemma TouchedIsHidden(h: Histories, g: Histories, g': Histories, xs: seq<ObjectInfo>, key: Key)
    requires AllHidden(h, g, xs) && SameTops(g, g') && 0 !in key
    ensures TopStays(h, g', key) && (!Untouched(xs, key) ==> Hidden(g', key))
  {
    if !Untouched(xs, key) {
      var k :| 0 <= k < |xs| && xs[k].key == key;
      assert Hidden(g, xs[k].key);
    } else {
      assert StackOf(g, key) == StackOf(h, key);
    }
  }

  lemma OverdueIsFound(s: seq<Entry>, bucket: Key, h: Histories, rule: Rule, now: int, key: Key)
    requires Refines(s, bucket, h) && 0 !in key && StackOf(h, key) != []
    requires 0 < rule.days <= 106751 && |Current(s, bucket, rule, now)| < 10000
    requires IsOverdue(Top(StackOf(h, key)), rule, now)
    ensures !Untouched(Current(s, bucket, rule, now), key)
  {
    CutoffIsDays(rule.days);
    assert InDays(Top(StackOf(h, key)), rule.prefix, rule.days, now);
    ExpiredIsFound(s, bucket, h, rule, now, key);
  }

  lemma {:induction false} HiddenStays(s: seq<Entry>, bucket: Key, status: Status, h: Histories, rules: seq<Rule>,
                                       now: int, w: World, n: nat, key: Key)
    requires Refines(s, bucket, h) && [] !in h && Later(h, w, n) && Proper(w) && 0 !in key && Hidden(h, key)
    ensures HeadObject(Sweep(s, bucket, status, rules, now, w, n), bucket, key, []) == None
    decreases |rules|
  {
    if rules == [] {
      assert Represents(s, bucket, key, StackOf(h, key));
    } else {
      var g, next := RuleOnKey(s, bucket, status, h, rules[0], now, w, n, key);
      var t := SweepRule(s, bucket, status, rules[0], now, w, n);
      SweepUnfolds(s, bucket, status, rules, now, w, n, next);
      HiddenStays(t, bucket, status, g, rules[1..], now, w, next, key);
    }
  }

  lemma {:induction false} SweepHides(s: seq<Entry>, bucket: Key, status: Status, h: Histories, rules: seq<Rule>,
                                      i: nat, now: int, w: World, n: nat, key: Key, x: ObjectInfo)
    requires Refines(s, bucket, h) && [] !in h && Later(h, w, n) && Proper(w) && 0 !in key
    requires i < |rules| && rules[i].enabled && 0 < rules[i].days <= 106751 && IsOverdue(x, rules[i], now)
    requires |Current(Sweep(s, bucket, status, rules[..i], now, w, n), bucket, rules[i], now)| < 10000
    requires StackOf(h, key) != [] && Top(StackOf(h, key)) == x
    ensures HeadObject(Sweep(s, bucket, status, rules, now, w, n), bucket, key, []) == None
    decreases i
  {
    var t := SweepRule(s, bucket, status, rules[0], now, w, n);
    var g, next := RuleOnKey(s, bucket, status, h, rules[0], now, w, n, key);
    SweepUnfolds(s, bucket, status, rules, now, w, n, next);
    if i == 0 {
      assert Sweep(s, bucket, status, rules[..i], now, w, n) == s;
      OverdueIsFound(s, bucket, h, rules[0], now, key);
    }
    if Hidden(g, key) {
      HiddenStays(t, bucket, status, g, rules[1..], now, w, next, key);
    } else {
      FrontUnfolds(s, bucket, status, rules, i, now, w, n, next);
      SweepHides(t, bucket, status, g, rules[1..], i - 1, now, w, next, key, x);
    }
  }

  lemma FrontUnfolds(s: seq<Entry>, bucket: Key, status: Status, rules: seq<Rule>, i: nat, now: int, w: World, n: nat,
                     next: nat)
    requires 0 < i < |rules| && next == AfterRule(s, bucket, status, rules[0], now, w, n)
    ensures Sweep(s, bucket, status, rules[..i], now, w, n)
            == Sweep(SweepRule(s, bucket, status, rules[0], now, w, n), bucket, status, rules[1..][..i - 1], now, w,
                next)
  {
    SweepUnfolds(s, bucket, status, rules[..i], now, w, n, next);
    assert rules[..i][1..] == rules[1..][..i - 1];
  }

  /** After a sweep no object can be read that was older than the days of some enabled
      rule with its prefix, if what that rule's search finds fits in a batch. */
  lemma OverdueObjectsGo(s: seq<Entry>, bucket: Key, status: Status, h: Histories, rules: seq<Rule>, i: nat, now: int,
                         w: World, n: nat, key: Key)
    requires Refines(s, bucket, h) && [] !in h && Later(h, w, n) && Proper(w)
    requires i < |rules| && rules[i].enabled && 0 < rules[i].days <= 106751
    requires |Current(Sweep(s, bucket, status, rules[..i], now, w, n), bucket, rules[i], now)| < 10000
    requires 0 !in key && HeadObject(s, bucket, key, []).Some?
    requires IsOverdue(HeadObject(s, bucket, key, []).value, rules[i], now)
    ensures HeadObject(Sweep(s, bucket, status, rules, now, w, n), bucket, key, []) == None
  {
    assert Represents(s, bucket, key, StackOf(h, key));
    SweepHides(s, bucket, status, h, rules, i, now, w, n, key, Top(StackOf(h, key)));
  }

  /** If the noncurrent versions that a rule finds fit in a batch, none that is older
      than its noncurrent days is left behind it. */
  lemma OverdueVersionsGo(s: seq<Entry>, bucket: Key, status: Status, h: Histories, rule: Rule, now: int, w: World,
                          n: nat, key: Key, id: Key)
    requires Refines(s, bucket, h) && [] !in h && Later(h, w, n) && rule.enabled && Proper(w)
    requires 0 < rule.noncurrentDays <= 106751
    requires |Noncurrent(ExpireDue(s, bucket, status, rule, now, w, n), bucket, rule, now)| < 10000
    requires 0 !in key && rule.prefix <= key
    ensures var found := Get(SweepRule(s, bucket, status, rule, now, w, n), VersionKey(bucket, key, id));
            found.Some? && !found.value.isLatest ==>
              now - found.value.lastModified <= rule.noncurrentDays * 86400_000_000_000
  {
    var g, m := ExpireDueKeeps(s, bucket, status, h, rule, now, w, n);
    var mid := ExpireDue(s, bucket, status, rule, now, w, n);
    var g', next := PurgeKeepsCurrent(mid, bucket, status, g, rule, now, w, m);
    PurgeTakesAllThatFit(mid, bucket, status, g, rule, now, w, m);
    NoneIsOverdue(SweepRule(s, bucket, status, rule, now, w, n), bucket, g', rule, now, key, id);
  }

  lemma NoneIsOverdue(t: seq<Entry>, bucket: Key, h: Histories, rule: Rule, now: int, key: Key, id: Key)
    requires Refines(t, bucket, h) && Noncurrent(t, bucket, rule, now) == []
    requires 0 < rule.noncurrentDays <= 106751 && 0 !in key && rule.prefix <= key
    ensures var found := Get(t, VersionKey(bucket, key, id));
            found.Some? && !found.value.isLatest ==>
              now - found.value.lastModified <= rule.noncurrentDays * 86400_000_000_000
  {
    GetMeans(t, VersionKey(bucket, key, id));
    if Get(t, VersionKey(bucket, key, id)).Some? && !Get(t, VersionKey(bucket, key, id)).value.isLatest {
      var i :| 0 <= i < |t| && t[i] == Entry(VersionKey(bucket, key, id), Get(t, VersionKey(bucket, key, id)).value);
      StackListing.KeyPartOf(bucket, key, id);
      VersionIsNoPointer(bucket, key, id, t[i]);
      var k := StackListing.RecordShows(t, bucket, h, i);
      BehindBucketStart(t, bucket, i);
      StaleFromMeans(t, bucket, rule, now, Seek(t, BucketPrefix(bucket)), MAX_BATCH);
      assert !IsStaleRecord(bucket, t[i], rule, now);
      CutoffIsDays(rule.noncurrentDays);
      assert InDays(t[i].info, rule.prefix, rule.noncurrentDays, now);
    }
  }

  lemma VersionIsNoPointer(bucket: Key, key: Key, id: Key, e: Entry)
    requires e.raw == VersionKey(bucket, key, id)
    ensures !IsPointer(bucket, e)
  {
    assert BucketPrefix(bucket) <= e.raw;
    assert ObjectListing.ObjectKey(bucket, e.raw)[|key|] == 0;
  }

  lemma OnlyMarkersAgain(s: seq<Entry>, t: seq<Entry>, bucket: Key, h: Histories, g: Histories, h': Histories,
                         rule: Rule, now: int)
    requires Refines(s, bucket, h) && Refines(t, bucket, h') && SameTops(g, h')
    requires AllHidden(h, g, Current(s, bucket, rule, now)) && |Current(s, bucket, rule, now)| < MAX_BATCH
    ensures forall x :: x in Current(t, bucket, rule, now) ==> x.isDeleteMarker
  {
    if rule.days > 0 {
      ExpiredFromMeans(s, bucket, rule, now, Seek(s, BucketPrefix(bucket)), MAX_BATCH);
      ExpiredFromMeans(t, bucket, rule, now, Seek(t, BucketPrefix(bucket)), MAX_BATCH);
      forall x | x in Current(t, bucket, rule, now) ensures x.isDeleteMarker {
        var i :| 0 <= i < |t| && IsExpired(bucket, t[i], rule, now) && t[i].info == x;
        ExpiredAgainIsMarker(s, t, bucket, h, g, h', rule, now, i);
      }
    }
  }

  lemma ExpiredAgainIsMarker(s: seq<Entry>, t: seq<Entry>, bucket: Key, h: Histories, g: Histories, h': Histories,
                             rule: Rule, now: int, i: nat)
    requires Refines(s, bucket, h) && Refines(t, bucket, h') && SameTops(g, h') && rule.days > 0
    requires AllHidden(h, g, Current(s, bucket, rule, now)) && |Current(s, bucket, rule, now)| < MAX_BATCH
    requires i < |t| && IsExpired(bucket, t[i], rule, now)
    ensures t[i].info.isDeleteMarker
  {
    var key := PointerShowsTop(t, bucket, h', i);
    assert Top(StackOf(g, key)) == Top(StackOf(h', key));
    if StackOf(g, key) == StackOf(h, key) {
      ExpiredIsFound(s, bucket, h, rule, now, key);
    }
    var xs := Current(s, bucket, rule, now);
    var k :| 0 <= k < |xs| && xs[k].key == key;
  }

  /** An expired current version is among those found, if they fit in a batch. */
  lemma ExpiredIsFound(s: seq<Entry>, bucket: Key, h: Histories, rule: Rule, now: int, key: Key)
    requires Refines(s, bucket, h) && rule.days > 0 && |Current(s, bucket, rule, now)| < MAX_BATCH
    requires 0 !in key && StackOf(h, key) != [] && Expired(Top(StackOf(h, key)), rule.prefix, rule.days, now)
    ensures !Untouched(Current(s, bucket, rule, now), key)
  {
    var m := TopHasPointer(s, bucket, h, key);
    BehindBucketStart(s, bucket, m);
    ExpiredFromMeans(s, bucket, rule, now, Seek(s, BucketPrefix(bucket)), MAX_BATCH);
    assert Represents(s, bucket, key, StackOf(h, key));
    assert s[m].info in Current(s, bucket, rule, now);
  }

  lemma LoneMarkersGone(t: seq<Entry>, bucket: Key, h: Histories, g: Histories, h': Histories, xs: seq<ObjectInfo>,
                        rule: Rule, now: int)
    requires Refines(t, bucket, h') && SameTops(g, h') && AllHidden(h, g, xs) && AllDue(h, xs, rule, now)
    ensures forall x :: x in xs && IsLoneMarker(h, x) ==> Get(t, PointerKey(bucket, x.key)) == None
  {
    forall x | x in xs && IsLoneMarker(h, x) ensures Get(t, PointerKey(bucket, x.key)) == None {
      var i :| 0 <= i < |xs| && xs[i] == x;
      assert IsDue(h, xs[i], rule, now);
      assert Represents(t, bucket, x.key, StackOf(h', x.key));
    }
  }
}
