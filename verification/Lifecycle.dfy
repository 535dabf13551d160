/** The hourly lifecycle sweep over one bucket (`CleanExpiredObjects`): expiration
    of current versions and of noncurrent versions, and aborting old uploads. */
module Lifecycle {
  import opened Keys
  import opened Records
  import opened VersionHistory
  import opened VersionStack
  import opened Versioning
  import ObjectListing
  import StackListing

  /** Days of 0 or less stand for a part that the rule does not have. */
  datatype Rule = Rule(enabled: bool, prefix: Key, days: int, noncurrentDays: int, abortDays: int)

  const MAX_BATCH: nat := 10000
  const NANOS_PER_DAY: int := 86400_000_000_000
  const TWO63: int := 0x8000_0000_0000_0000

  /** `time.Duration(days) * 24 * time.Hour`, in 64-bit arithmetic. */
  function Cutoff(days: int): int {
    (days * NANOS_PER_DAY + TWO63) % (2 * TWO63) - TWO63
  }

  /** (`Sub` caps the age at the ends of 64 bits, which changes no comparison with
      a cutoff.) */
  predicate Expired(x: ObjectInfo, prefix: Key, days: int, now: int) {
    prefix <= x.key && now - x.lastModified > Cutoff(days)
  }

  predicate OlderThan(x: ObjectInfo, days: int, now: int) {
    now - x.lastModified > days * 86400_000_000_000
  }

  const MAX_DAYS: int := 106751

  predicate InDays(x: ObjectInfo, prefix: Key, days: int, now: int) {
    Expired(x, prefix, days, now) <==> prefix <= x.key && OlderThan(x, days, now)
  }

  /** What counts as expired is exactly what has the prefix and is older than the
      rule's days, if and only if these fit 64 bits of nanoseconds; and only then is
      nothing younger expired. */
  lemma CutoffIsDays(days: int)
    requires 0 < days < TWO63
    ensures (forall x, prefix, now :: InDays(x, prefix, days, now)) <==> days <= 106751
    ensures (forall x, prefix, now :: Expired(x, prefix, days, now) ==> OlderThan(x, days, now)) <==> days <= 106751
  {
    if days > MAX_DAYS {
      assert days * NANOS_PER_DAY >= 106752 * NANOS_PER_DAY >= TWO63 > Cutoff(days);
      var x := ObjectInfo([], [], 0, true, false, [], 0);
      assert Expired(x, [], days, Cutoff(days) + 1) && !OlderThan(x, days, Cutoff(days) + 1);
      assert !InDays(x, [], days, Cutoff(days) + 1);
    }
  }

  // ----- what a sweep does to the records -----

  predicate IsPointer(bucket: Key, e: Entry) {
    ObjectListing.IsPointer(bucket, e)
  }

  /** The expired latest pointers from `pos` on, up to a full batch. */
  function ExpiredFrom(s: seq<Entry>, bucket: Key, rule: Rule, now: int, pos: nat, room: nat): seq<ObjectInfo>
    decreases |s| - pos
  {
    if pos >= |s| || !(BucketPrefix(bucket) <= s[pos].raw) || room == 0 then []
    else if IsPointer(bucket, s[pos]) && Expired(s[pos].info, rule.prefix, rule.days, now) then
      [s[pos].info] + ExpiredFrom(s, bucket, rule, now, pos + 1, room - 1)
    else ExpiredFrom(s, bucket, rule, now, pos + 1, room)
  }

  /** The expired noncurrent version records from `pos` on, up to a full batch. */
  function StaleFrom(s: seq<Entry>, bucket: Key, rule: Rule, now: int, pos: nat, room: nat): seq<ObjectInfo>
    decreases |s| - pos
  {
    if pos >= |s| || !(BucketPrefix(bucket) <= s[pos].raw) || room == 0 then []
    else if !IsPointer(bucket, s[pos]) && !s[pos].info.isLatest
            && Expired(s[pos].info, rule.prefix, rule.noncurrentDays, now) then
      [s[pos].info] + StaleFrom(s, bucket, rule, now, pos + 1, room - 1)
    else StaleFrom(s, bucket, rule, now, pos + 1, room)
  }

  /** Some record of the key has another version id. */
  predicate HasOther(s: seq<Entry>, bucket: Key, key: Key, versionId: Key) {
    exists i :: 0 <= i < |s| && Belongs(bucket, key, s[i].raw) && s[i].info.versionId != versionId
  }

  function Applied(s: seq<Entry>, bucket: Key, op: Option<Op>): seq<Entry> {
    if op.Some? then Apply(s, bucket, op.value) else s
  }

  /** Fresh version ids and the times that the clock shows, one per deletion. */
  datatype World = World(ids: nat -> Key, times: nat -> int)

  /** A delete marker goes when it is all that is left; anything else is deleted
      as a client without a version id would. */
  function ExpireOp(s: seq<Entry>, bucket: Key, status: Status, x: ObjectInfo, w: World, n: nat): Option<Op> {
    if !x.isDeleteMarker then DeleteObjectOp(s, bucket, status, x.key, [], w.ids(n), w.times(n))
    else if HasOther(s, bucket, x.key, x.versionId) then None
    else DeleteObjectOp(s, bucket, status, x.key, x.versionId, w.ids(n), w.times(n))
  }

  function ExpireAll(s: seq<Entry>, bucket: Key, status: Status, xs: seq<ObjectInfo>, w: World, n: nat): seq<Entry>
    decreases |xs|
  {
    if xs == [] then s
    else ExpireAll(Applied(s, bucket, ExpireOp(s, bucket, status, xs[0], w, n)), bucket, status, xs[1..], w, n + 1)
  }

  function PurgeOp(s: seq<Entry>, bucket: Key, status: Status, x: ObjectInfo, w: World, n: nat): Option<Op> {
    DeleteObjectOp(s, bucket, status, x.key, x.versionId, w.ids(n), w.times(n))
  }

  function PurgeAll(s: seq<Entry>, bucket: Key, status: Status, xs: seq<ObjectInfo>, w: World, n: nat): seq<Entry>
    decreases |xs|
  {
    if xs == [] then s
    else PurgeAll(Applied(s, bucket, PurgeOp(s, bucket, status, xs[0], w, n)), bucket, status, xs[1..], w, n + 1)
  }

  function Current(s: seq<Entry>, bucket: Key, rule: Rule, now: int): seq<ObjectInfo> {
    if rule.days > 0 then ExpiredFrom(s, bucket, rule, now, Seek(s, BucketPrefix(bucket)), MAX_BATCH) else []
  }

  function Noncurrent(s: seq<Entry>, bucket: Key, rule: Rule, now: int): seq<ObjectInfo> {
    if rule.noncurrentDays > 0 then StaleFrom(s, bucket, rule, now, Seek(s, BucketPrefix(bucket)), MAX_BATCH) else []
  }

  function ExpireDue(s: seq<Entry>, bucket: Key, status: Status, rule: Rule, now: int, w: World, n: nat): seq<Entry> {
    ExpireAll(s, bucket, status, Current(s, bucket, rule, now), w, n)
  }

  function PurgeDue(s: seq<Entry>, bucket: Key, status: Status, rule: Rule, now: int, w: World, n: nat): seq<Entry> {
    PurgeAll(s, bucket, status, Noncurrent(s, bucket, rule, now), w, n)
  }

  /** The number of the next deletion, after one for each record found. */
  function AfterExpiry(s: seq<Entry>, bucket: Key, rule: Rule, now: int, n: nat): nat {
    n + |Current(s, bucket, rule, now)|
  }

  function AfterPurge(s: seq<Entry>, bucket: Key, rule: Rule, now: int, n: nat): nat {
    n + |Noncurrent(s, bucket, rule, now)|
  }

  function SweepRule(s: seq<Entry>, bucket: Key, status: Status, rule: Rule, now: int, w: World, n: nat): seq<Entry> {
    if !rule.enabled then s
    else PurgeDue(ExpireDue(s, bucket, status, rule, now, w, n), bucket, status, rule, now, w,
         AfterExpiry(s, bucket, rule, now, n))
  }

  function AfterRule(s: seq<Entry>, bucket: Key, status: Status, rule: Rule, now: int, w: World, n: nat): nat {
    if !rule.enabled then n
    else AfterPurge(ExpireDue(s, bucket, status, rule, now, w, n), bucket, rule, now,
         AfterExpiry(s, bucket, rule, now, n))
  }

  function Sweep(s: seq<Entry>, bucket: Key, status: Status, rules: seq<Rule>, now: int, w: World, n: nat): seq<Entry>
    decreases |rules|
  {
    if rules == [] then s
    else Sweep(SweepRule(s, bucket, status, rules[0], now, w, n), bucket, status, rules[1..], now, w,
         AfterRule(s, bucket, status, rules[0], now, w, n))
  }

  // ----- what it does to the uploads in progress -----

  /** The uploads from `pos` on that are too old, up to a full batch. An upload's
      record has its id in `versionId` and its creation in `lastModified`. */
  function OldFrom(u: seq<Entry>, rule: Rule, now: int, pos: nat, room: nat): seq<ObjectInfo>
    decreases |u| - pos
  {
    if pos >= |u| || room == 0 then []
    else if Expired(u[pos].info, rule.prefix, rule.abortDays, now) then
      [u[pos].info] + OldFrom(u, rule, now, pos + 1, room - 1)
    else OldFrom(u, rule, now, pos + 1, room)
  }

  function AbortAll(u: seq<Entry>, bucket: Key, xs: seq<ObjectInfo>): seq<Entry>
    decreases |xs|
  {
    if xs == [] then u else AbortAll(Delete(u, VersionKey(bucket, xs[0].key, xs[0].versionId)), bucket, xs[1..])
  }

  function AbortRule(u: seq<Entry>, bucket: Key, rule: Rule, now: int): seq<Entry> {
    if rule.enabled && rule.abortDays > 0 then AbortAll(u, bucket, OldFrom(u, rule, now, 0, MAX_BATCH)) else u
  }

  function AbortSweep(u: seq<Entry>, bucket: Key, rules: seq<Rule>, now: int): seq<Entry>
    decreases |rules|
  {
    if rules == [] then u else AbortSweep(AbortRule(u, bucket, rules[0], now), bucket, rules[1..], now)
  }

  // ----- the sweep itself -----

  method DeleteObject(store: MetadataStore, status: Status, key: Key, versionId: Key, newId: Key, now: int)
    requires store.Valid()
    modifies store
    ensures store.Valid()
    ensures store.objects
            == Applied(old(store.objects), store.bucket,
                DeleteObjectOp(old(store.objects), store.bucket, status, key, versionId, newId, now))
  {
    if versionId != [] {
      store.DeleteObjectMeta(key, versionId);
    } else if status != Unversioned {
      store.PutObjectMeta(DeleteMarker(key, IdFor(status, newId), now));
    } else if Get(store.objects, PointerKey(store.bucket, key)).Some? {
      store.DeleteObjectMeta(key, []);
    }
  }

  method CollectExpired(store: MetadataStore, rule: Rule, now: int) returns (list: seq<ObjectInfo>)
    requires store.Valid() && rule.days > 0
    ensures list == Current(store.objects, store.bucket, rule, now)
  {
    var s, bucket := store.objects, store.bucket;
    list := [];
    var pos := Seek(s, BucketPrefix(bucket));
    while pos < |s| && BucketPrefix(bucket) <= s[pos].raw && |list| < MAX_BATCH
      invariant |list| <= MAX_BATCH
      invariant Current(s, bucket, rule, now) == list + ExpiredFrom(s, bucket, rule, now, pos, MAX_BATCH - |list|)
      decreases |s| - pos
    {
      var m := s[pos].info;
      if IsPointer(bucket, s[pos]) && Expired(m, rule.prefix, rule.days, now) {
        list := list + [m];
      }
      pos := pos + 1;
    }
  }

  method CollectStale(store: MetadataStore, rule: Rule, now: int) returns (list: seq<ObjectInfo>)
    requires store.Valid() && rule.noncurrentDays > 0
    ensures list == Noncurrent(store.objects, store.bucket, rule, now)
  {
    var s, bucket := store.objects, store.bucket;
    list := [];
    var pos := Seek(s, BucketPrefix(bucket));
    while pos < |s| && BucketPrefix(bucket) <= s[pos].raw && |list| < MAX_BATCH
      invariant |list| <= MAX_BATCH
      invariant Noncurrent(s, bucket, rule, now) == list + StaleFrom(s, bucket, rule, now, pos, MAX_BATCH - |list|)
      decreases |s| - pos
    {
      var v := s[pos].info;
      if !IsPointer(bucket, s[pos]) && !v.isLatest && Expired(v, rule.prefix, rule.noncurrentDays, now) {
        list := list + [v];
      }
      pos := pos + 1;
    }
  }

  method ExpireOne(store: MetadataStore, status: Status, exp: ObjectInfo, w: World, n: nat)
    requires store.Valid()
    modifies store
    ensures store.Valid()
            && store.objects == Applied(old(store.objects), store.bucket,
               ExpireOp(old(store.objects), store.bucket, status, exp, w, n))
  {
    if !exp.isDeleteMarker {
      DeleteObject(store, status, exp.key, [], w.ids(n), w.times(n));
    } else if !HasOther(store.objects, store.bucket, exp.key, exp.versionId) {
      DeleteObject(store, status, exp.key, exp.versionId, w.ids(n), w.times(n));
    }
  }

  method ExpireCurrent(store: MetadataStore, status: Status, list: seq<ObjectInfo>, w: World, n: nat)
    requires store.Valid()
    modifies store
    ensures store.Valid() && store.objects == ExpireAll(old(store.objects), store.bucket, status, list, w, n)
  {
    ghost var whole := ExpireAll(store.objects, store.bucket, status, list, w, n);
    assert list[0..] == list;
    var i, stamp: nat := 0, n;
    while i < |list|
      invariant store.Valid() && StillToExpire(whole, store.objects, store.bucket, status, list, i, w, stamp)
    {
      ghost var before := store.objects;
      ExpireOne(store, status, list[i], w, stamp);
      ExpireMoves(whole, before, store.objects, store.bucket, status, list, i, w, stamp);
      i, stamp := i + 1, stamp + 1;
    }
  }

  ghost predicate StillToExpire(whole: seq<Entry>, s: seq<Entry>, bucket: Key, status: Status, list: seq<ObjectInfo>,
                                i: nat, w: World, n: nat) {
    i <= |list| && whole == ExpireAll(s, bucket, status, list[i..], w, n)
  }

  lemma ExpireMoves(whole: seq<Entry>, s: seq<Entry>, t: seq<Entry>, bucket: Key, status: Status,
                    list: seq<ObjectInfo>, i: nat, w: World, n: nat)
    requires i < |list| && StillToExpire(whole, s, bucket, status, list, i, w, n)
    requires t == Applied(s, bucket, ExpireOp(s, bucket, status, list[i], w, n))
    ensures StillToExpire(whole, t, bucket, status, list, i + 1, w, n + 1)
  {
    assert list[i..][1..] == list[i + 1..];
  }

  method PurgeStale(store: MetadataStore, status: Status, list: seq<ObjectInfo>, w: World, n: nat)
    requires store.Valid()
    modifies store
    ensures store.Valid() && store.objects == PurgeAll(old(store.objects), store.bucket, status, list, w, n)
  {
    ghost var whole := PurgeAll(store.objects, store.bucket, status, list, w, n);
    assert list[0..] == list;
    var i, stamp: nat := 0, n;
    while i < |list|
      invariant store.Valid() && StillToPurge(whole, store.objects, store.bucket, status, list, i, w, stamp)
    {
      ghost var before := store.objects;
      DeleteObject(store, status, list[i].key, list[i].versionId, w.ids(stamp), w.times(stamp));
      PurgeMoves(whole, before, store.objects, store.bucket, status, list, i, w, stamp);
      i, stamp := i + 1, stamp + 1;
    }
  }

  ghost predicate StillToPurge(whole: seq<Entry>, s: seq<Entry>, bucket: Key, status: Status, list: seq<ObjectInfo>,
                               i: nat, w: World, n: nat) {
    i <= |list| && whole == PurgeAll(s, bucket, status, list[i..], w, n)
  }

  lemma PurgeMoves(whole: seq<Entry>, s: seq<Entry>, t: seq<Entry>, bucket: Key, status: Status,
                   list: seq<ObjectInfo>, i: nat, w: World, n: nat)
    requires i < |list| && StillToPurge(whole, s, bucket, status, list, i, w, n)
    requires t == Applied(s, bucket, PurgeOp(s, bucket, status, list[i], w, n))
    ensures StillToPurge(whole, t, bucket, status, list, i + 1, w, n + 1)
  {
    assert list[i..][1..] == list[i + 1..];
  }

  method CleanRule(store: MetadataStore, status: Status, rule: Rule, now: int, w: World, n: nat) returns (next: nat)
    requires store.Valid()
    modifies store
    ensures store.Valid() && store.objects == SweepRule(old(store.objects), store.bucket, status, rule, now, w, n)
    ensures next == AfterRule(old(store.objects), store.bucket, status, rule, now, w, n)
  {
    next := n;
    if rule.enabled {
      next := CleanCurrent(store, status, rule, now, w, next);
      next := CleanNoncurrent(store, status, rule, now, w, next);
    }
  }

  method CleanCurrent(store: MetadataStore, status: Status, rule: Rule, now: int, w: World, n: nat) returns (next: nat)
    requires store.Valid()
    modifies store
    ensures store.Valid() && store.objects == ExpireDue(old(store.objects), store.bucket, status, rule, now, w, n)
    ensures next == AfterExpiry(old(store.objects), store.bucket, rule, now, n)
  {
    next := n;
    if rule.days > 0 {
      var list := CollectExpired(store, rule, now);
      ExpireCurrent(store, status, list, w, n);
      next := n + |list|;
    }
  }

  method CleanNoncurrent(store: MetadataStore, status: Status, rule: Rule, now: int, w: World, n: nat)
      returns (next: nat)
    requires store.Valid()
    modifies store
    ensures store.Valid() && store.objects == PurgeDue(old(store.objects), store.bucket, status, rule, now, w, n)
    ensures next == AfterPurge(old(store.objects), store.bucket, rule, now, n)
  {
    next := n;
    if rule.noncurrentDays > 0 {
      var list := CollectStale(store, rule, now);
      PurgeStale(store, status, list, w, n);
      next := n + |list|;
    }
  }

  /** Part 3 of a rule: collect the uploads that are too old, then abort them. */
  method AbortOld(uploads: MetadataStore, rule: Rule, now: int)
    requires uploads.Valid()
    modifies uploads
    ensures uploads.Valid() && uploads.objects == AbortRule(old(uploads.objects), uploads.bucket, rule, now)
  {
    if rule.enabled && rule.abortDays > 0 {
      var aborts := CollectOld(uploads.objects, rule, now);
      AbortEach(uploads, aborts);
    }
  }

  method CollectOld(u: seq<Entry>, rule: Rule, now: int) returns (aborts: seq<ObjectInfo>)
    ensures aborts == OldFrom(u, rule, now, 0, MAX_BATCH)
  {
    aborts := [];
    var pos := 0;
    while pos < |u| && |aborts| < MAX_BATCH
      invariant pos <= |u| && |aborts| <= MAX_BATCH
      invariant OldFrom(u, rule, now, 0, MAX_BATCH) == aborts + OldFrom(u, rule, now, pos, MAX_BATCH - |aborts|)
      decreases |u| - pos
    {
      if Expired(u[pos].info, rule.prefix, rule.abortDays, now) {
        aborts := aborts + [u[pos].info];
      }
      pos := pos + 1;
    }
  }

  /** `AbortMultipartUpload`, as far as the records go, for each of the uploads. */
  method AbortEach(uploads: MetadataStore, aborts: seq<ObjectInfo>)
    requires uploads.Valid()
    modifies uploads
    ensures uploads.Valid() && uploads.objects == AbortAll(old(uploads.objects), uploads.bucket, aborts)
  {
    ghost var whole := AbortAll(uploads.objects, uploads.bucket, aborts);
    assert aborts[0..] == aborts;
    for i := 0 to |aborts|
      invariant uploads.Valid() && whole == AbortAll(uploads.objects, uploads.bucket, aborts[i..])
    {
      assert aborts[i..][1..] == aborts[i + 1..];
      uploads.Remove(VersionKey(uploads.bucket, aborts[i].key, aborts[i].versionId));
    }
  }

  method CleanBucket(store: MetadataStore, uploads: MetadataStore, status: Status, rules: seq<Rule>, now: int, w: World)
    requires store.Valid() && uploads.Valid() && store != uploads
    modifies store, uploads
    ensures store.Valid() && store.objects == Sweep(old(store.objects), store.bucket, status, rules, now, w, 0)
    ensures uploads.Valid() && uploads.objects == AbortSweep(old(uploads.objects), uploads.bucket, rules, now)
  {
    var i, n: nat := 0, 0;
    ghost var whole, left := Sweep(store.objects, store.bucket, status, rules, now, w, n),
        AbortSweep(uploads.objects, uploads.bucket, rules, now);
    assert rules[0..] == rules;
    while i < |rules|
      invariant store.Valid() && StillToSweep(whole, store.objects, store.bucket, status, rules, i, now, w, n)
      invariant uploads.Valid() && StillToAbort(left, uploads.objects, uploads.bucket, rules, i, now)
    {
      ghost var before, open := store.objects, uploads.objects;
      var next := CleanRule(store, status, rules[i], now, w, n);
      AbortOld(uploads, rules[i], now);
      SweepMoves(whole, before, store.objects, store.bucket, status, rules, i, now, w, n, next);
      AbortMoves(left, open, uploads.objects, uploads.bucket, rules, i, now);
      i, n := i + 1, next;
    }
  }

  /** A bucket with its two databases and its lifecycle rules. */
  datatype Managed = Managed(store: MetadataStore, uploads: MetadataStore, status: Status, rules: seq<Rule>)

  /** Every database is in use for one thing only. */
  ghost predicate Separate(buckets: seq<Managed>) {
    forall n :: 0 <= n < |buckets| ==> Apart(buckets, n)
  }

  ghost predicate Apart(buckets: seq<Managed>, n: nat)
    requires n < |buckets|
  {
    var own := {buckets[n].store, buckets[n].uploads};
    && buckets[n].store != buckets[n].uploads
    && forall i :: 0 <= i < |buckets| && i != n ==> buckets[i].store !in own && buckets[i].uploads !in own
  }

  ghost function Databases(buckets: seq<Managed>): set<MetadataStore> {
    (set b | b in buckets :: b.store) + (set b | b in buckets :: b.uploads)
  }

  /** The bucket's databases, from what they held before, after a sweep. */
  ghost predicate Cleaned(b: Managed, objects: seq<Entry>, uploads: seq<Entry>, now: int, w: World)
    reads b.store, b.uploads
  {
    && b.store.objects == Sweep(objects, b.store.bucket, b.status, b.rules, now, w, 0)
    && b.uploads.objects == AbortSweep(uploads, b.uploads.bucket, b.rules, now)
  }

  method CleanManaged(b: Managed, now: int, w: World)
    requires b.store.Valid() && b.uploads.Valid() && b.store != b.uploads
    modifies b.store, b.uploads
    ensures b.store.Valid() && b.uploads.Valid()
    ensures Cleaned(b, old(b.store.objects), old(b.uploads.objects), now, w)
  {
    if b.rules != [] {
      CleanBucket(b.store, b.uploads, b.status, b.rules, now, w);
    }
  }

  /** Bucket after bucket; one without rules stays as it is. */
  method CleanExpiredObjects(buckets: seq<Managed>, now: int, worlds: seq<World>)
    requires |worlds| == |buckets| && Separate(buckets)
    requires forall i :: 0 <= i < |buckets| ==> buckets[i].store.Valid() && buckets[i].uploads.Valid()
    modifies Databases(buckets)
    ensures forall i :: 0 <= i < |buckets| ==> buckets[i].store.Valid() && buckets[i].uploads.Valid()
    ensures forall i :: 0 <= i < |buckets| ==>
              Cleaned(buckets[i], old(buckets[i].store.objects), old(buckets[i].uploads.objects), now, worlds[i])
  {
    for n := 0 to |buckets|
      invariant forall i :: 0 <= i < |buckets| ==> buckets[i].store.Valid() && buckets[i].uploads.Valid()
      invariant forall i :: 0 <= i < n ==>
                  Cleaned(buckets[i], old(buckets[i].store.objects), old(buckets[i].uploads.objects), now, worlds[i])
      invariant forall i :: n <= i < |buckets| ==>
                  && buckets[i].store.objects == old(buckets[i].store.objects)
                  && buckets[i].uploads.objects == old(buckets[i].uploads.objects)
    {
      assert Apart(buckets, n) && buckets[n] in buckets;
      CleanManaged(buckets[n], now, worlds[n]);
    }
  }

  ghost predicate StillToAbort(left: seq<Entry>, u: seq<Entry>, bucket: Key, rules: seq<Rule>, i: nat, now: int) {
    i <= |rules| && left == AbortSweep(u, bucket, rules[i..], now)
  }

  lemma AbortMoves(left: seq<Entry>, u: seq<Entry>, t: seq<Entry>, bucket: Key, rules: seq<Rule>, i: nat, now: int)
    requires i < |rules| && StillToAbort(left, u, bucket, rules, i, now) && t == AbortRule(u, bucket, rules[i], now)
    ensures StillToAbort(left, t, bucket, rules, i + 1, now)
  {
    assert rules[i..][0] == rules[i] && rules[i..][1..] == rules[i + 1..];
  }

  ghost predicate StillToSweep(whole: seq<Entry>, s: seq<Entry>, bucket: Key, status: Status, rules: seq<Rule>,
                               i: nat, now: int, w: World, n: nat) {
    i <= |rules| && whole == Sweep(s, bucket, status, rules[i..], now, w, n)
  }

  lemma SweepMoves(whole: seq<Entry>, s: seq<Entry>, t: seq<Entry>, bucket: Key, status: Status, rules: seq<Rule>,
                   i: nat, now: int, w: World, n: nat, next: nat)
    requires i < |rules| && StillToSweep(whole, s, bucket, status, rules, i, now, w, n)
    requires t == SweepRule(s, bucket, status, rules[i], now, w, n)
             && next == AfterRule(s, bucket, status, rules[i], now, w, n)
    ensures StillToSweep(whole, t, bucket, status, rules, i + 1, now, w, next)
  {
    assert rules[i..][0] == rules[i] && rules[i..][1..] == rules[i + 1..];
    SweepUnfolds(s, bucket, status, rules[i..], now, w, n, next);
  }

  // ----- what it does to the version stacks -----

  ghost predicate OldEnough(rules: seq<Rule>, x: ObjectInfo, now: int) {
    exists i :: 0 <= i < |rules| && Outdates(rules[i], x, now)
  }

  /** An enabled rule that matches the key sets a cutoff that the version is past. */
  predicate Outdates(rule: Rule, x: ObjectInfo, now: int) {
    rule.enabled && ((rule.days > 0 && Expired(x, rule.prefix, rule.days, now))
        || (rule.noncurrentDays > 0 && Expired(x, rule.prefix, rule.noncurrentDays, now)))
  }

  /** Every version is still there unless the rule outdates it. */
  ghost predicate Keeps(h: Histories, h': Histories, rule: Rule, now: int) {
    forall key, x :: 0 !in key && x in StackOf(h, key) ==> x in StackOf(h', key) || Outdates(rule, x, now)
  }

  /** The next time that the clock shows is later than all versions. */
  ghost predicate Later(h: Histories, w: World, n: nat) {
    forall key, x :: x in StackOf(h, key) ==> x.lastModified < w.times(n)
  }

  /** The clock never stands still, and ids are never empty. */
  ghost predicate Proper(w: World) {
    forall n: nat :: w.times(n) < w.times(n + 1) && w.ids(n) != []
  }

  /** The current version of the key is `x`, and it has expired. */
  ghost predicate IsDue(h: Histories, x: ObjectInfo, rule: Rule, now: int) {
    && x.key != [] && 0 !in x.key && StackOf(h, x.key) != [] && Top(StackOf(h, x.key)) == Plain(x)
    && rule.enabled && rule.days > 0 && Expired(x, rule.prefix, rule.days, now)
  }

  ghost predicate AllDue(h: Histories, xs: seq<ObjectInfo>, rule: Rule, now: int) {
    && (forall i :: 0 <= i < |xs| ==> IsDue(h, xs[i], rule, now))
    && (forall i, j :: 0 <= i < j < |xs| ==> xs[i].key != xs[j].key)
  }

  /** When the current version has expired, so have all older ones. */
  lemma DeletedAreOlder(st: Stack, key: Key, rule: Rule, now: int)
    requires IsStack(st, key) && st != []
    requires rule.enabled && rule.days > 0 && Expired(Top(st), rule.prefix, rule.days, now)
    ensures forall x :: x in st ==> Outdates(rule, x, now)
  {
    forall x | x in st ensures Outdates(rule, x, now) {
      var i :| 0 <= i < |st| && st[i] == x;
      assert st[i].lastModified <= Top(st).lastModified;
    }
  }

  function AfterMaybe(h: Histories, op: Option<Op>): Histories {
    if op.Some? then After(h, op.value) else h
  }

  /** The history that expiring `xs` leaves. */
  function AfterExpiries(s: seq<Entry>, bucket: Key, status: Status, h: Histories, xs: seq<ObjectInfo>, w: World,
                         n: nat): Histories
    decreases |xs|
  {
    if xs == [] then h
    else
      var op := ExpireOp(s, bucket, status, xs[0], w, n);
      AfterExpiries(Applied(s, bucket, op), bucket, status, AfterMaybe(h, op), xs[1..], w, n + 1)
  }

  /** The history that purging `xs` leaves. */
  function AfterPurges(h: Histories, xs: seq<ObjectInfo>): Histories
    decreases |xs|
  {
    if xs == [] then h else AfterPurges(After(h, DeleteOp(xs[0].key, xs[0].versionId)), xs[1..])
  }

  lemma ExpireOneKeeps(s: seq<Entry>, bucket: Key, status: Status, h: Histories, x: ObjectInfo, w: World, n: nat,
                       rule: Rule, now: int) returns (h': Histories)
    requires Refines(s, bucket, h) && Later(h, w, n) && IsDue(h, x, rule, now) && Proper(w)
    ensures Refines(Applied(s, bucket, ExpireOp(s, bucket, status, x, w, n)), bucket, h')
    ensures Keeps(h, h', rule, now) && Later(h', w, n + 1)
    ensures forall key :: key != x.key ==> StackOf(h', key) == StackOf(h, key)
    ensures [] !in h ==> [] !in h'
    ensures h' == AfterMaybe(h, ExpireOp(s, bucket, status, x, w, n))
  {
    var op := ExpireOp(s, bucket, status, x, w, n);
    h' := AfterMaybe(h, op);
    assert Represents(s, bucket, x.key, StackOf(h, x.key));
    DeletedAreOlder(StackOf(h, x.key), x.key, rule, now);
    assert w.times(n) < w.times(n + 1);
    if op.Some? {
      OneOpKeeps(s, bucket, h, op.value, w, n, rule, now);
    }
  }

  lemma OneOpKeeps(s: seq<Entry>, bucket: Key, h: Histories, op: Op, w: World, n: nat, rule: Rule, now: int)
    requires Refines(s, bucket, h) && Later(h, w, n) && Allowed(h, op) && Proper(w)
    requires op.PutOp? ==> op.info.lastModified == w.times(n)
    requires forall y :: y in StackOf(h, op.Target()) ==> Outdates(rule, y, now)
    ensures Refines(Apply(s, bucket, op), bucket, After(h, op))
    ensures Keeps(h, After(h, op), rule, now) && Later(After(h, op), w, n + 1)
    ensures forall key :: key != op.Target() ==> StackOf(After(h, op), key) == StackOf(h, key)
  {
    assert Represents(s, bucket, op.Target(), StackOf(h, op.Target()));
    StepRefines(s, bucket, h, op);
    AfterIsLater(h, op, w, n);
    OutdatedMayGo(h, op, rule, now);
  }

  lemma OutdatedMayGo(h: Histories, op: Op, rule: Rule, now: int)
    requires forall y :: y in StackOf(h, op.Target()) ==> Outdates(rule, y, now)
    ensures Keeps(h, After(h, op), rule, now)
    ensures forall key :: key != op.Target() ==> StackOf(After(h, op), key) == StackOf(h, key)
  {
    forall key, y | y in StackOf(h, key) ensures y in StackOf(After(h, op), key) || Outdates(rule, y, now) {
      if key != op.Target() { assert StackOf(After(h, op), key) == StackOf(h, key); }
    }
  }

  lemma AfterIsLater(h: Histories, op: Op, w: World, n: nat)
    requires Proper(w) && Later(h, w, n) && (op.PutOp? ==> op.info.lastModified == w.times(n))
    requires IsStack(StackOf(h, op.Target()), op.Target())
    ensures Later(After(h, op), w, n + 1)
  {
    var h', st := After(h, op), StackOf(h, op.Target());
    assert w.times(n) < w.times(n + 1);
    match op {
      case PutOp(info) => PushIsStack(st, info.key, info);
      case DeleteOp(key, vid) => RemoveIsStack(st, key, vid);
    }
    forall key, x | x in StackOf(h', key) ensures x.lastModified < w.times(n + 1) {
      if key == op.Target() {
        assert x in st || (op.PutOp? && x == Plain(op.info));
      } else {
        assert StackOf(h', key) == StackOf(h, key);
      }
    }
  }

  lemma {:induction false} ExpireAllKeeps(s: seq<Entry>, bucket: Key, status: Status, h: Histories,
                                          xs: seq<ObjectInfo>, w: World, n: nat, rule: Rule, now: int)
      returns (h': Histories, next: nat)
    requires Refines(s, bucket, h) && Later(h, w, n) && AllDue(h, xs, rule, now) && [] !in h && Proper(w)
    ensures Refines(ExpireAll(s, bucket, status, xs, w, n), bucket, h') && [] !in h'
    ensures h' == AfterExpiries(s, bucket, status, h, xs, w, n)
    ensures Keeps(h, h', rule, now) && next == n + |xs| && Later(h', w, next)
    decreases |xs|
  {
    if xs == [] {
      h', next := h, n;
    } else {
      var g := ExpireOneKeeps(s, bucket, status, h, xs[0], w, n, rule, now);
      OthersStayDue(h, g, xs, rule, now);
      h', next := ExpireAllKeeps(Applied(s, bucket, ExpireOp(s, bucket, status, xs[0], w, n)), bucket, status, g,
          xs[1..], w, n + 1, rule, now);
      KeepsBoth(h, g, h', rule, now);
    }
  }

  lemma OthersStayDue(h: Histories, g: Histories, xs: seq<ObjectInfo>, rule: Rule, now: int)
    requires xs != [] && AllDue(h, xs, rule, now)
    requires forall key :: key != xs[0].key ==> StackOf(g, key) == StackOf(h, key)
    ensures AllDue(g, xs[1..], rule, now)
  {
    forall i | 0 <= i < |xs[1..]| ensures IsDue(g, xs[1..][i], rule, now) {
      assert IsDue(h, xs[i + 1], rule, now) && xs[i + 1].key != xs[0].key;
    }
  }

  lemma KeepsBoth(h: Histories, g: Histories, h': Histories, rule: Rule, now: int)
    requires Keeps(h, g, rule, now) && Keeps(g, h', rule, now)
    ensures Keeps(h, h', rule, now)
  {
  }

  // ----- noncurrent versions -----

  /** Not the current version of its key, and whatever has its id has expired. */
  ghost predicate IsStale(h: Histories, x: ObjectInfo, rule: Rule, now: int) {
    var st := StackOf(h, x.key);
    && x.key != [] && 0 !in x.key && x.versionId != [] && st != [] && Top(st).versionId != x.versionId
    && forall y :: y in st && y.versionId == x.versionId ==> Outdates(rule, y, now)
  }

  ghost predicate AllStale(h: Histories, xs: seq<ObjectInfo>, rule: Rule, now: int) {
    forall i :: 0 <= i < |xs| ==> IsStale(h, xs[i], rule, now)
  }

  ghost predicate SameTops(h: Histories, h': Histories) {
    forall key :: 0 !in key
        ==> (StackOf(h, key) == [] <==> StackOf(h', key) == [])
            && (StackOf(h, key) != [] ==> Top(StackOf(h', key)) == Top(StackOf(h, key)))
  }

  /** Purging expired noncurrent versions keeps the current version of every key. */
  lemma {:induction false} PurgeAllKeeps(s: seq<Entry>, bucket: Key, status: Status, h: Histories,
                                         xs: seq<ObjectInfo>, w: World, n: nat, rule: Rule, now: int)
      returns (h': Histories, next: nat)
    requires Refines(s, bucket, h) && Later(h, w, n) && [] !in h && AllStale(h, xs, rule, now) && Proper(w)
    ensures Refines(PurgeAll(s, bucket, status, xs, w, n), bucket, h') && [] !in h' && h' == AfterPurges(h, xs)
    ensures SameTops(h, h') && Keeps(h, h', rule, now) && next == n + |xs| && Later(h', w, next)
    decreases |xs|
  {
    if xs == [] {
      h', next := h, n;
    } else {
      var g := After(h, DeleteOp(xs[0].key, xs[0].versionId));
      PurgeOneKeeps(s, bucket, status, h, xs[0], rule, now, w, n);
      AllStaleStay(s, bucket, h, xs, rule, now);
      h', next := PurgeAllKeeps(Applied(s, bucket, PurgeOp(s, bucket, status, xs[0], w, n)), bucket, status, g,
          xs[1..], w, n + 1, rule, now);
      KeepsBoth(h, g, h', rule, now);
    }
  }

  /** A stale version has an id, so just that version is deleted. */
  lemma PurgeOneKeeps(s: seq<Entry>, bucket: Key, status: Status, h: Histories, x: ObjectInfo, rule: Rule, now: int,
                      w: World, n: nat)
    requires Refines(s, bucket, h) && Later(h, w, n) && IsStale(h, x, rule, now) && Proper(w)
    ensures var g := After(h, DeleteOp(x.key, x.versionId));
            && Refines(Applied(s, bucket, PurgeOp(s, bucket, status, x, w, n)), bucket, g)
            && SameTops(h, g) && Keeps(h, g, rule, now) && Later(g, w, n + 1)
  {
    assert Represents(s, bucket, x.key, StackOf(h, x.key));
    StepRefines(s, bucket, h, DeleteOp(x.key, x.versionId));
    RemoveStale(h, x, rule, now, w, n);
    AfterIsLater(h, DeleteOp(x.key, x.versionId), w, n);
  }

  /** On the stacks: a noncurrent version goes, the top and everything else stays. */
  lemma RemoveStale(h: Histories, x: ObjectInfo, rule: Rule, now: int, w: World, n: nat)
    requires Later(h, w, n) && IsStale(h, x, rule, now) && IsStack(StackOf(h, x.key), x.key)
    ensures var g := After(h, DeleteOp(x.key, x.versionId));
            SameTops(h, g) && Keeps(h, g, rule, now) && Later(g, w, n)
  {
    var g, st := After(h, DeleteOp(x.key, x.versionId)), StackOf(h, x.key);
    RemoveIsStack(st, x.key, x.versionId);
    RemoveKeepsTop(st, x.key, x.versionId);
    assert StackOf(g, x.key) == Remove(st, x.versionId);
    forall key | key != x.key ensures StackOf(g, key) == StackOf(h, key) {
    }
    forall key, y | y in StackOf(g, key) ensures y.lastModified < w.times(n) {
      assert y in StackOf(h, key);
    }
  }

  lemma AllStaleStay(s: seq<Entry>, bucket: Key, h: Histories, xs: seq<ObjectInfo>, rule: Rule, now: int)
    requires Refines(s, bucket, h) && xs != [] && AllStale(h, xs, rule, now)
    ensures AllStale(After(h, DeleteOp(xs[0].key, xs[0].versionId)), xs[1..], rule, now)
  {
    forall i | 0 <= i < |xs[1..]|
        ensures IsStale(After(h, DeleteOp(xs[0].key, xs[0].versionId)), xs[1..][i], rule, now) {
      StaleStays(s, bucket, h, xs[0], xs[i + 1], rule, now);
    }
  }

  lemma StaleStays(s: seq<Entry>, bucket: Key, h: Histories, x: ObjectInfo, y: ObjectInfo, rule: Rule, now: int)
    requires Refines(s, bucket, h) && IsStale(h, x, rule, now) && IsStale(h, y, rule, now)
    ensures IsStale(After(h, DeleteOp(x.key, x.versionId)), y, rule, now)
  {
    var st := StackOf(h, x.key);
    assert Represents(s, bucket, x.key, st);
    RemoveIsStack(st, x.key, x.versionId);
    RemoveKeepsTop(st, x.key, x.versionId);
  }

  // ----- from the records to the stacks -----

  /** The latest pointers collected are the expired current versions of their keys. */
  lemma PointerIsDue(s: seq<Entry>, bucket: Key, h: Histories, rule: Rule, now: int, i: nat)
    requires Refines(s, bucket, h) && [] !in h && i < |s| && IsPointer(bucket, s[i]) && rule.enabled && rule.days > 0
    requires Expired(s[i].info, rule.prefix, rule.days, now)
    ensures IsDue(h, s[i].info, rule, now) && s[i].raw == PointerKey(bucket, s[i].info.key)
  {
    var key := ObjectListing.ObjectKey(bucket, s[i].raw);
    assert s[i].raw == PointerKey(bucket, key);
    GetMeans(s, s[i].raw);
    assert Represents(s, bucket, key, StackOf(h, key));
  }

  /** What was collected from `pos` on comes from pointers there. */
  ghost predicate FromPointers(s: seq<Entry>, bucket: Key, xs: seq<ObjectInfo>, pos: nat) {
    forall x :: x in xs ==> PointerFrom(s, bucket, x, pos)
  }

  ghost predicate PointerFrom(s: seq<Entry>, bucket: Key, x: ObjectInfo, pos: nat) {
    exists i :: pos <= i < |s| && s[i].info == x && s[i].raw == PointerKey(bucket, x.key)
  }

  lemma {:induction false} ExpiredAreDue(s: seq<Entry>, bucket: Key, h: Histories, rule: Rule, now: int, pos: nat,
                                         room: nat)
    requires Refines(s, bucket, h) && [] !in h && rule.enabled && rule.days > 0
    ensures AllDue(h, ExpiredFrom(s, bucket, rule, now, pos, room), rule, now)
    ensures FromPointers(s, bucket, ExpiredFrom(s, bucket, rule, now, pos, room), pos)
    decreases |s| - pos
  {
    if pos < |s| && BucketPrefix(bucket) <= s[pos].raw && room > 0 {
      if IsPointer(bucket, s[pos]) && Expired(s[pos].info, rule.prefix, rule.days, now) {
        var rest := ExpiredFrom(s, bucket, rule, now, pos + 1, room - 1);
        ExpiredAreDue(s, bucket, h, rule, now, pos + 1, room - 1);
        PointerIsDue(s, bucket, h, rule, now, pos);
        FirstHasOwnKey(s, bucket, pos, rest);
        DueInFront(h, s[pos].info, rest, rule, now);
        PointersInFront(s, bucket, s[pos].info, rest, pos);
      } else {
        ExpiredAreDue(s, bucket, h, rule, now, pos + 1, room);
        PointersEarlier(s, bucket, ExpiredFrom(s, bucket, rule, now, pos + 1, room), pos);
      }
    }
  }

  lemma DueInFront(h: Histories, x: ObjectInfo, rest: seq<ObjectInfo>, rule: Rule, now: int)
    requires IsDue(h, x, rule, now) && AllDue(h, rest, rule, now) && forall j ::
               0 <= j < |rest| ==> rest[j].key != x.key
    ensures AllDue(h, [x] + rest, rule, now)
  {
  }

  lemma PointersEarlier(s: seq<Entry>, bucket: Key, xs: seq<ObjectInfo>, pos: nat)
    requires FromPointers(s, bucket, xs, pos + 1)
    ensures FromPointers(s, bucket, xs, pos)
  {
    forall x | x in xs ensures PointerFrom(s, bucket, x, pos) {
      assert PointerFrom(s, bucket, x, pos + 1);
    }
  }

  lemma PointersInFront(s: seq<Entry>, bucket: Key, x: ObjectInfo, rest: seq<ObjectInfo>, pos: nat)
    requires FromPointers(s, bucket, rest, pos + 1) && pos < |s| && s[pos].info == x
             && s[pos].raw == PointerKey(bucket, x.key)
    ensures FromPointers(s, bucket, [x] + rest, pos)
  {
    PointersEarlier(s, bucket, rest, pos);
    assert PointerFrom(s, bucket, x, pos);
  }

  lemma FirstHasOwnKey(s: seq<Entry>, bucket: Key, pos: nat, rest: seq<ObjectInfo>)
    requires Sorted(s) && pos < |s| && s[pos].raw == PointerKey(bucket, s[pos].info.key)
    requires FromPointers(s, bucket, rest, pos + 1)
    ensures forall j :: 0 <= j < |rest| ==> rest[j].key != s[pos].info.key
  {
    forall j | 0 <= j < |rest| ensures rest[j].key != s[pos].info.key {
      assert PointerFrom(s, bucket, rest[j], pos + 1);
      var i :| pos < i < |s| && s[i].info == rest[j] && s[i].raw == PointerKey(bucket, rest[j].key);
      LessIrreflexive(s[i].raw);
    }
  }

  /** A history record that is not latest shows a version that is not current. */
  lemma RecordIsStale(s: seq<Entry>, bucket: Key, h: Histories, rule: Rule, now: int, i: nat)
    requires Refines(s, bucket, h) && [] !in h && i < |s| && BucketPrefix(bucket) <= s[i].raw
    requires !IsPointer(bucket, s[i]) && !s[i].info.isLatest && rule.enabled && rule.noncurrentDays > 0
    requires Expired(s[i].info, rule.prefix, rule.noncurrentDays, now)
    ensures IsStale(h, s[i].info, rule, now)
  {
    var x := s[i].info;
    var j := StackListing.RecordShows(s, bucket, h, i);
    StackListing.RawOfRecord(bucket, s[i].raw);
    var st := StackOf(h, x.key);
    assert Represents(s, bucket, x.key, st);
    assert x == StackListing.Recorded(st, j);
    forall y | y in st && y.versionId == x.versionId ensures Outdates(rule, y, now) {
      var k :| 0 <= k < |st| && st[k] == y;
    }
  }

  predicate IsStaleRecord(bucket: Key, e: Entry, rule: Rule, now: int) {
    && BucketPrefix(bucket) <= e.raw && !IsPointer(bucket, e) && !e.info.isLatest
    && Expired(e.info, rule.prefix, rule.noncurrentDays, now)
  }

  ghost predicate FromRecords(s: seq<Entry>, bucket: Key, rule: Rule, now: int, x: ObjectInfo) {
    exists i :: 0 <= i < |s| && IsStaleRecord(bucket, s[i], rule, now) && s[i].info == x
  }

  lemma {:induction false} StaleFromRecords(s: seq<Entry>, bucket: Key, rule: Rule, now: int, pos: nat, room: nat)
    ensures forall x :: x in StaleFrom(s, bucket, rule, now, pos, room) ==> FromRecords(s, bucket, rule, now, x)
    decreases |s| - pos
  {
    if pos < |s| && BucketPrefix(bucket) <= s[pos].raw && room > 0 {
      StaleFromRecords(s, bucket, rule, now, pos + 1, if IsStaleRecord(bucket, s[pos], rule, now) then room - 1
      else room);
    }
  }

  lemma {:induction false} StaleAreStale(s: seq<Entry>, bucket: Key, h: Histories, rule: Rule, now: int, pos: nat,
                                         room: nat)
    requires Refines(s, bucket, h) && [] !in h && rule.enabled && rule.noncurrentDays > 0
    ensures AllStale(h, StaleFrom(s, bucket, rule, now, pos, room), rule, now)
  {
    var xs := StaleFrom(s, bucket, rule, now, pos, room);
    StaleFromRecords(s, bucket, rule, now, pos, room);
    forall k | 0 <= k < |xs| ensures IsStale(h, xs[k], rule, now) {
      assert xs[k] in xs;
      var i :| 0 <= i < |s| && IsStaleRecord(bucket, s[i], rule, now) && s[i].info == xs[k];
      RecordIsStale(s, bucket, h, rule, now, i);
    }
  }

  // ----- the whole sweep -----

  /** Noncurrent expiration never removes the current version of a key. */
  lemma PurgeKeepsCurrent(s: seq<Entry>, bucket: Key, status: Status, h: Histories, rule: Rule, now: int, w: World,
                          n: nat)
      returns (h': Histories, next: nat)
    requires Refines(s, bucket, h) && [] !in h && Later(h, w, n) && rule.enabled && Proper(w)
    ensures Refines(PurgeDue(s, bucket, status, rule, now, w, n), bucket, h') && [] !in h'
    ensures h' == AfterPurges(h, Noncurrent(s, bucket, rule, now))
    ensures SameTops(h, h') && Keeps(h, h', rule, now)
    ensures next == AfterPurge(s, bucket, rule, now, n) && Later(h', w, next)
  {
    if rule.noncurrentDays > 0 {
      StaleAreStale(s, bucket, h, rule, now, Seek(s, BucketPrefix(bucket)), MAX_BATCH);
    }
    h', next := PurgeAllKeeps(s, bucket, status, h, Noncurrent(s, bucket, rule, now), w, n, rule, now);
  }

  lemma RuleKeeps(s: seq<Entry>, bucket: Key, status: Status, h: Histories, rule: Rule, now: int, w: World, n: nat)
      returns (h': Histories, next: nat)
    requires Refines(s, bucket, h) && [] !in h && Later(h, w, n) && Proper(w)
    ensures Refines(SweepRule(s, bucket, status, rule, now, w, n), bucket, h') && [] !in h'
    ensures Keeps(h, h', rule, now) && next == AfterRule(s, bucket, status, rule, now, w, n) && Later(h', w, next)
  {
    if !rule.enabled {
      h', next := h, n;
    } else {
      var g;
      g, next := ExpireDueKeeps(s, bucket, status, h, rule, now, w, n);
      h', next := PurgeKeepsCurrent(ExpireDue(s, bucket, status, rule, now, w, n), bucket, status, g, rule, now, w,
          next);
      KeepsBoth(h, g, h', rule, now);
    }
  }

  lemma ExpireDueKeeps(s: seq<Entry>, bucket: Key, status: Status, h: Histories, rule: Rule, now: int, w: World, n: nat)
      returns (h': Histories, next: nat)
    requires Refines(s, bucket, h) && [] !in h && Later(h, w, n) && Proper(w) && rule.enabled
    ensures Refines(ExpireDue(s, bucket, status, rule, now, w, n), bucket, h') && [] !in h'
    ensures h' == AfterExpiries(s, bucket, status, h, Current(s, bucket, rule, now), w, n)
    ensures Keeps(h, h', rule, now) && next == AfterExpiry(s, bucket, rule, now, n) && Later(h', w, next)
  {
    CurrentAreDue(s, bucket, h, rule, now);
    h', next := ExpireAllKeeps(s, bucket, status, h, Current(s, bucket, rule, now), w, n, rule, now);
  }

  lemma CurrentAreDue(s: seq<Entry>, bucket: Key, h: Histories, rule: Rule, now: int)
    requires Refines(s, bucket, h) && [] !in h && rule.enabled
    ensures AllDue(h, Current(s, bucket, rule, now), rule, now)
  {
    if rule.days > 0 {
      ExpiredAreDue(s, bucket, h, rule, now, Seek(s, BucketPrefix(bucket)), MAX_BATCH);
    }
  }

  /** Every version is still there unless some rule outdates it. */
  ghost predicate KeepsUnlessOld(h: Histories, h': Histories, rules: seq<Rule>, now: int) {
    forall key, x :: 0 !in key && x in StackOf(h, key) ==> x in StackOf(h', key) || OldEnough(rules, x, now)
  }

  /** Whatever the versioning status and the rules, every version that a sweep
      removes is past the cutoff of some enabled rule that matches its key. */
  lemma {:induction false} SweepRemovesOnlyExpired(s: seq<Entry>, bucket: Key, status: Status, h: Histories,
                                                   rules: seq<Rule>, now: int, w: World, n: nat) returns (h': Histories)
    requires Refines(s, bucket, h) && [] !in h && Later(h, w, n) && Proper(w)
    ensures Refines(Sweep(s, bucket, status, rules, now, w, n), bucket, h')
    ensures KeepsUnlessOld(h, h', rules, now)
    decreases |rules|
  {
    if rules == [] {
      h' := h;
    } else {
      var g, next := RuleKeeps(s, bucket, status, h, rules[0], now, w, n);
      var t := SweepRule(s, bucket, status, rules[0], now, w, n);
      h' := SweepRemovesOnlyExpired(t, bucket, status, g, rules[1..], now, w, next);
      RulesTogether(h, g, h', rules, now);
      SweepUnfolds(s, bucket, status, rules, now, w, n, next);
    }
  }

  lemma {:induction false} SweepUnfolds(s: seq<Entry>, bucket: Key, status: Status, rules: seq<Rule>, now: int,
                                        w: World, n: nat, next: nat)
    requires rules != [] && next == AfterRule(s, bucket, status, rules[0], now, w, n)
    ensures Sweep(s, bucket, status, rules, now, w, n)
            == Sweep(SweepRule(s, bucket, status, rules[0], now, w, n), bucket, status, rules[1..], now, w, next)
  {
  }

  lemma RulesTogether(h: Histories, g: Histories, h': Histories, rules: seq<Rule>, now: int)
    requires rules != [] && Keeps(h, g, rules[0], now) && KeepsUnlessOld(g, h', rules[1..], now)
    ensures KeepsUnlessOld(h, h', rules, now)
  {
    forall key, x | 0 !in key && x in StackOf(h, key) ensures x in StackOf(h', key) || OldEnough(rules, x, now) {
      if OldEnough(rules[1..], x, now) {
        var i :| 0 <= i < |rules[1..]| && Outdates(rules[1..][i], x, now);
        assert Outdates(rules[i + 1], x, now);
      } else if x !in StackOf(g, key) {
        assert Outdates(rules[0], x, now);
      }
    }
  }

  // ----- which uploads go -----

  /** Records of uploads stand under their own keys and ids. */
  ghost predicate UploadRecords(u: seq<Entry>, bucket: Key) {
    Sorted(u) && forall e :: e in u ==> IsUpload(bucket, e)
  }

  predicate IsUpload(bucket: Key, e: Entry) {
    e.raw == VersionKey(bucket, e.info.key, e.info.versionId) && 0 !in e.info.key
  }

  /** An enabled rule that matches the key says that the upload is too old. */
  predicate IsOld(rule: Rule, x: ObjectInfo, now: int) {
    rule.enabled && rule.abortDays > 0 && Expired(x, rule.prefix, rule.abortDays, now)
  }

  lemma {:induction false} OldMeans(u: seq<Entry>, rule: Rule, now: int, pos: nat, room: nat)
    ensures forall x :: x in OldFrom(u, rule, now, pos, room) ==> Expired(x, rule.prefix, rule.abortDays, now)
    ensures |OldFrom(u, rule, now, pos, room)| < room ==>
              forall i :: pos <= i < |u| && Expired(u[i].info, rule.prefix, rule.abortDays, now)
                  ==> u[i].info in OldFrom(u, rule, now, pos, room)
    decreases |u| - pos
  {
    if pos < |u| && room > 0 {
      OldMeans(u, rule, now, pos + 1, if Expired(u[pos].info, rule.prefix, rule.abortDays, now) then room - 1
          else room);
    }
  }

  lemma {:induction false} AbortAllMeans(u: seq<Entry>, bucket: Key, xs: seq<ObjectInfo>)
    requires Sorted(u)
    ensures Sorted(AbortAll(u, bucket, xs))
    ensures forall e :: e in AbortAll(u, bucket, xs) <==> e in u && forall i ::
              0 <= i < |xs| ==> e.raw != VersionKey(bucket, xs[i].key, xs[i].versionId)
    decreases |xs|
  {
    if xs != [] {
      var k := VersionKey(bucket, xs[0].key, xs[0].versionId);
      DeleteKeepsOrder(u, k);
      AbortAllMeans(Delete(u, k), bucket, xs[1..]);
      forall e ensures e in AbortAll(u, bucket, xs) <==> e in u && forall i ::
            0 <= i < |xs| ==> e.raw != VersionKey(bucket, xs[i].key, xs[i].versionId) {
        if e in AbortAll(u, bucket, xs) {
          forall i | 0 <= i < |xs| ensures e.raw != VersionKey(bucket, xs[i].key, xs[i].versionId) {
            assert i > 0 ==> xs[i] == xs[1..][i - 1];
          }
        }
      }
    }
  }

  /** One rule aborts old uploads only, and all of them if they fit in a batch. */
  lemma RuleAbortsOld(u: seq<Entry>, bucket: Key, rule: Rule, now: int)
    requires UploadRecords(u, bucket)
    ensures UploadRecords(AbortRule(u, bucket, rule, now), bucket)
    ensures forall e :: e in AbortRule(u, bucket, rule, now) ==> e in u
    ensures forall e :: e in u && e !in AbortRule(u, bucket, rule, now) ==> IsOld(rule, e.info, now)
    ensures |OldFrom(u, rule, now, 0, MAX_BATCH)| <= 10000
    ensures |OldFrom(u, rule, now, 0, MAX_BATCH)| < 10000 ==> forall e ::
              e in AbortRule(u, bucket, rule, now) ==> !IsOld(rule, e.info, now)
  {
    var xs := OldFrom(u, rule, now, 0, MAX_BATCH);
    OldFitRoom(u, rule, now, 0, MAX_BATCH);
    if rule.enabled && rule.abortDays > 0 {
      OldMeans(u, rule, now, 0, MAX_BATCH);
      AbortAllMeans(u, bucket, xs);
      OldAreUploads(u, bucket, rule, now, 0, MAX_BATCH);
      forall e | e in u && e !in AbortAll(u, bucket, xs) ensures IsOld(rule, e.info, now) {
        var i :| 0 <= i < |xs| && e.raw == VersionKey(bucket, xs[i].key, xs[i].versionId);
        assert xs[i] in xs;
        var f :| f in u && f.info == xs[i];
        OneRecord(u, e, f);
      }
      forall e | e in u && |xs| < MAX_BATCH && IsOld(rule, e.info, now) ensures e !in AbortAll(u, bucket, xs) {
        var j :| 0 <= j < |u| && u[j] == e;
        assert u[j].info in xs;
        var i :| 0 <= i < |xs| && xs[i] == e.info;
        assert IsUpload(bucket, e);
      }
    }
  }

  lemma {:induction false} OldFitRoom(u: seq<Entry>, rule: Rule, now: int, pos: nat, room: nat)
    ensures |OldFrom(u, rule, now, pos, room)| <= room
    decreases |u| - pos
  {
    if pos < |u| && room > 0 {
      OldFitRoom(u, rule, now, pos + 1, if Expired(u[pos].info, rule.prefix, rule.abortDays, now) then room - 1
      else room);
    }
  }

  lemma {:induction false} OldAreUploads(u: seq<Entry>, bucket: Key, rule: Rule, now: int, pos: nat, room: nat)
    ensures forall x :: x in OldFrom(u, rule, now, pos, room) ==> exists e :: e in u && e.info == x
    decreases |u| - pos
  {
    if pos < |u| && room > 0 {
      OldAreUploads(u, bucket, rule, now, pos + 1, if Expired(u[pos].info, rule.prefix, rule.abortDays, now)
          then room - 1 else room);
      assert u[pos] in u;
    }
  }

  lemma OneRecord(u: seq<Entry>, e: Entry, f: Entry)
    requires Sorted(u) && e in u && f in u && e.raw == f.raw
    ensures e == f
  {
    var i :| 0 <= i < |u| && u[i] == e;
    var j :| 0 <= j < |u| && u[j] == f;
    FoundAtSeek(u, e.raw, i);
    FoundAtSeek(u, e.raw, j);
  }

  ghost predicate OldForSome(rules: seq<Rule>, x: ObjectInfo, now: int) {
    exists i :: 0 <= i < |rules| && IsOld(rules[i], x, now)
  }

  /** A sweep makes up no uploads, and those it aborts are past the cutoff of an
      enabled rule that matches their key. */
  lemma {:induction false} SweepAbortsOnlyOld(u: seq<Entry>, bucket: Key, rules: seq<Rule>, now: int)
    requires UploadRecords(u, bucket)
    ensures UploadRecords(AbortSweep(u, bucket, rules, now), bucket)
    ensures forall e :: e in AbortSweep(u, bucket, rules, now) ==> e in u
    ensures forall e :: e in u && e !in AbortSweep(u, bucket, rules, now) ==> OldForSome(rules, e.info, now)
    decreases |rules|
  {
    if rules != [] {
      var t := AbortRule(u, bucket, rules[0], now);
      RuleAbortsOld(u, bucket, rules[0], now);
      SweepAbortsOnlyOld(t, bucket, rules[1..], now);
      forall e | e in u && e !in AbortSweep(u, bucket, rules, now) ensures OldForSome(rules, e.info, now) {
        if e in t {
          assert OldForSome(rules[1..], e.info, now);
          var i :| 0 <= i < |rules[1..]| && IsOld(rules[1..][i], e.info, now);
          assert IsOld(rules[i + 1], e.info, now);
        } else {
          assert IsOld(rules[0], e.info, now);
        }
      }
    }
  }

  /** After a sweep no upload is in progress that is older than the days of some enabled
      rule with its prefix, if what that rule's search finds fits in a batch. */
  lemma {:induction false} OverdueUploadsGo(u: seq<Entry>, bucket: Key, rules: seq<Rule>, i: nat, now: int, e: Entry)
    requires UploadRecords(u, bucket) && i < |rules| && rules[i].enabled && 0 < rules[i].abortDays <= 106751
    requires |OldFrom(AbortSweep(u, bucket, rules[..i], now), rules[i], now, 0, MAX_BATCH)| < 10000
    requires rules[i].prefix <= e.info.key
             && now - e.info.lastModified > rules[i].abortDays * 86400_000_000_000
    ensures e !in AbortSweep(u, bucket, rules, now)
    decreases i
  {
    var t := AbortRule(u, bucket, rules[0], now);
    RuleAbortsOld(u, bucket, rules[0], now);
    if i == 0 {
      assert AbortSweep(u, bucket, rules[..i], now) == u;
      CutoffIsDays(rules[i].abortDays);
      assert InDays(e.info, rules[i].prefix, rules[i].abortDays, now);
      assert IsOld(rules[0], e.info, now);
      SweepAbortsOnlyOld(t, bucket, rules[1..], now);
    } else {
      assert rules[..i][1..] == rules[1..][..i - 1];
      OverdueUploadsGo(t, bucket, rules[1..], i - 1, now, e);
    }
  }

  // ----- in days -----

  predicate PastDays(rule: Rule, x: ObjectInfo, now: int) {
    && rule.enabled && rule.prefix <= x.key
    && ((rule.days > 0 && OlderThan(x, rule.days, now))
       || (rule.noncurrentDays > 0 && OlderThan(x, rule.noncurrentDays, now)))
  }

  ghost predicate PastDaysOfSome(rules: seq<Rule>, x: ObjectInfo, now: int) {
    exists i :: 0 <= i < |rules| && PastDays(rules[i], x, now)
  }

  ghost predicate KeepsTheYoung(h: Histories, h': Histories, rules: seq<Rule>, now: int) {
    forall key, x :: 0 !in key && x in StackOf(h, key) ==> x in StackOf(h', key) || PastDaysOfSome(rules, x, now)
  }

  ghost predicate DaysFit(rules: seq<Rule>) {
    forall i :: 0 <= i < |rules| ==> rules[i].days <= 106751 && rules[i].noncurrentDays <= 106751
  }

  /** While the numbers of days fit 64 bits of nanoseconds, every version that a
      sweep removes is older than the days of some enabled rule that matches its key. */
  lemma SweepSparesTheYoung(s: seq<Entry>, bucket: Key, status: Status, h: Histories, rules: seq<Rule>, now: int,
                            w: World, n: nat) returns (h': Histories)
    requires Refines(s, bucket, h) && [] !in h && Later(h, w, n) && Proper(w) && DaysFit(rules)
    ensures Refines(Sweep(s, bucket, status, rules, now, w, n), bucket, h')
    ensures KeepsTheYoung(h, h', rules, now)
  {
    h' := SweepRemovesOnlyExpired(s, bucket, status, h, rules, now, w, n);
    DaysAreKept(h, h', rules, now);
  }

  lemma DaysAreKept(h: Histories, h': Histories, rules: seq<Rule>, now: int)
    requires KeepsUnlessOld(h, h', rules, now) && DaysFit(rules)
    ensures KeepsTheYoung(h, h', rules, now)
  {
    forall key, x | 0 !in key && x in StackOf(h, key) && x !in StackOf(h', key) ensures PastDaysOfSome(rules, x, now) {
      assert OldEnough(rules, x, now);
      var i :| 0 <= i < |rules| && Outdates(rules[i], x, now);
      OutdatedIsPastDays(rules[i], x, now);
    }
  }

  lemma OutdatedIsPastDays(rule: Rule, x: ObjectInfo, now: int)
    requires Outdates(rule, x, now) && rule.days <= MAX_DAYS && rule.noncurrentDays <= MAX_DAYS
    ensures PastDays(rule, x, now)
  {
    if rule.days > 0 {
      CutoffIsDays(rule.days);
    }
    if rule.noncurrentDays > 0 {
      CutoffIsDays(rule.noncurrentDays);
    }
  }

  /** With a rule of 106752 days a sweep deletes an object put a nanosecond ago. */
  lemma SweepTakesFreshObject(bucket: Key, w: World) returns (s: seq<Entry>, rule: Rule)
    ensures s == [Entry(PointerKey(bucket, [97]), Example([], 1).(isLatest := true))]
    ensures rule == Rule(true, [], 106752, 0, 0) && Sweep(s, bucket, Unversioned, [rule], 2, w, 0) == []
  {
    var info := Example([], 1).(isLatest := true);
    s, rule := [Entry(PointerKey(bucket, [97]), info)], Rule(true, [], 106752, 0, 0);
    SoleIsCurrent(s, bucket, rule, info);
    SoleIsDeleted(s, bucket, info);
    assert [info][1..] == [];
    assert ExpireAll(s, bucket, Unversioned, [info], w, 0) == [];
    assert SweepRule(s, bucket, Unversioned, rule, 2, w, 0) == [];
    assert [rule][1..] == [];
  }

  lemma SoleIsCurrent(s: seq<Entry>, bucket: Key, rule: Rule, info: ObjectInfo)
    requires s == [Entry(PointerKey(bucket, [97]), info)] && info.key == [97] && info.lastModified == 1
    requires rule == Rule(true, [], 106752, 0, 0)
    ensures Current(s, bucket, rule, 2) == [info]
  {
    SeekSplits(s, BucketPrefix(bucket));
    PrefixNotAbove(BucketPrefix(bucket), s[0].raw);
    assert ObjectListing.ObjectKey(bucket, s[0].raw) == [97];
    assert Expired(info, [], rule.days, 2);
    assert ExpiredFrom(s, bucket, rule, 2, 1, MAX_BATCH - 1) == [];
  }

  lemma SoleIsDeleted(s: seq<Entry>, bucket: Key, info: ObjectInfo)
    requires s == [Entry(PointerKey(bucket, [97]), info)]
    ensures Get(s, PointerKey(bucket, [97])) == Some(info) && DeleteMeta(s, bucket, [97], []) == []
  {
    FoundAtSeek(s, PointerKey(bucket, [97]), 0);
    assert Delete(s, PointerKey(bucket, [97])) == [];
  }
}
