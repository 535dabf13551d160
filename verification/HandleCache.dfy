/** The cache of open bucket databases (`acquireBucketDB`, `releaseBucketDB`,
    `evictLocked`, `CloseAndRemoveBucketDB`) under any number of goroutines. Every
    critical section under the cache mutex is one atomic step; the per-bucket
    init locks are those of LockMap. */
module HandleCache {
  import LockMap

  type User = LockMap.User
  type Name = LockMap.Name
  type HandleId = nat

  /** The soft cap on cached handles. */
  const MAX_OPEN: nat := 100

  /** A cache entry and how often its database was closed. */
  datatype Handle = Handle(bucket: Name, refCount: int, lastUsed: int, evicted: bool, closes: nat)
  {
    function Close(): Handle {
      this.(closes := closes + 1)
    }

    function Touch(now: int): Handle {
      this.(refCount := refCount + 1, lastUsed := now)
    }
  }

  /** Where a goroutine stands in `acquireBucketDB` and after it. */
  datatype Phase =
    | Idle
    | Missed(bucket: Name)
    | Contending(bucket: Name)
    | Inside(bucket: Name)
    | Opening(bucket: Name)
    | Opened(bucket: Name)
    | Departing(bucket: Name, result: Result)
    | Unlocked(bucket: Name, result: Result)
    | Using(h: HandleId)

  /** What an acquisition hands out in the end. */
  datatype Result = Failed | Got(h: HandleId)

  predicate Has(p: Phase, h: HandleId) {
    match p
    case Using(k) => k == h
    case Departing(_, r) => r == Got(h)
    case Unlocked(_, r) => r == Got(h)
    case _ => false
  }

  datatype State = State(active: map<Name, HandleId>, handles: map<HandleId, Handle>, init: LockMap.State,
      phases: map<User, Phase>)
  {
    function PhaseOf(u: User): Phase {
      if u in phases then phases[u] else Idle
    }

    function Moved(u: User, p: Phase): State {
      this.(phases := phases[u := p])
    }
  }

  const INITIAL := State(map[], map[], LockMap.INITIAL, map[])

  predicate Cached(s: State, bucket: Name) {
    bucket in s.active && s.active[bucket] in s.handles
  }

  // ----- the steps -----

  datatype Step =
    | Hit(u: User, bucket: Name, now: int)
    | Miss(u: User, bucket: Name)
    | Refuse(u: User)
    | Contend(u: User, newLock: LockMap.LockId)
    | Lock(u: User)
    | RecheckHit(u: User, now: int)
    | RecheckMiss(u: User)
    | OpenFails(u: User)
    | OpenWorks(u: User)
    | LoseRace(u: User, now: int)
    | Insert(u: User, h: HandleId, now: int, victim: Victim)
    | Unlock(u: User)
    | Depart(u: User)
    | Release(u: User)
    | Remove(bucket: Name)

  datatype Victim = Nobody | Evict(bucket: Name)

  predicate IsIdle(s: State, bucket: Name, keep: Name) {
    Cached(s, bucket) && bucket != keep && s.handles[s.active[bucket]].refCount <= 0
  }

  /** `evictLocked`: below the cap nobody goes; otherwise an idle handle that no
      idle handle was used before, if there is an idle handle at all. */
  ghost predicate IsVictim(s: State, keep: Name, victim: Victim) {
    match victim
    case Nobody =>
      |s.active| >= MAX_OPEN ==> forall b :: !IsIdle(s, b, keep)
    case Evict(v) =>
      && |s.active| >= MAX_OPEN && IsIdle(s, v, keep)
      && forall b :: IsIdle(s, b, keep) ==> s.handles[s.active[v]].lastUsed <= s.handles[s.active[b]].lastUsed
  }

  ghost predicate Enabled(s: State, step: Step) {
    match step
    case Hit(u, bucket, _) => s.PhaseOf(u).Idle? && Cached(s, bucket)
    case Miss(u, bucket) => s.PhaseOf(u).Idle? && bucket !in s.active
    case Refuse(u) => s.PhaseOf(u).Missed?
    case Contend(u, newLock) => s.PhaseOf(u).Missed? && LockMap.CanEnter(s.init, u, s.PhaseOf(u).bucket, newLock)
    case Lock(u) => s.PhaseOf(u).Contending? && LockMap.CanLock(s.init, u)
    case RecheckHit(u, _) => s.PhaseOf(u).Inside? && Cached(s, s.PhaseOf(u).bucket)
    case RecheckMiss(u) => s.PhaseOf(u).Inside? && s.PhaseOf(u).bucket !in s.active
    case OpenFails(u) => s.PhaseOf(u).Opening?
    case OpenWorks(u) => s.PhaseOf(u).Opening?
    case LoseRace(u, _) => s.PhaseOf(u).Opened? && Cached(s, s.PhaseOf(u).bucket)
    case Insert(u, h, _, victim) =>
      s.PhaseOf(u).Opened? && s.PhaseOf(u).bucket !in s.active && h !in s.handles
          && IsVictim(s, s.PhaseOf(u).bucket, victim)
    case Unlock(u) => s.PhaseOf(u).Departing? && LockMap.CanUnlock(s.init, u)
    case Depart(u) => s.PhaseOf(u).Unlocked? && LockMap.CanLeave(s.init, u)
    case Release(u) => s.PhaseOf(u).Using? && s.PhaseOf(u).h in s.handles
    case Remove(bucket) => bucket in s.active ==> Cached(s, bucket)
  }

  /** Look the entry up, stamp it and count the caller in. */
  function Join(s: State, bucket: Name, now: int): State
    requires Cached(s, bucket)
  {
    s.(handles := s.handles[s.active[bucket] := s.handles[s.active[bucket]].Touch(now)])
  }

  function Drop(s: State, victim: Victim): State
    requires victim.Evict? ==> Cached(s, victim.bucket)
  {
    match victim
    case Nobody => s
    case Evict(v) => s.(handles := s.handles[s.active[v] := s.handles[s.active[v]].(evicted := true).Close()],
                     active := s.active - {v})
  }

  function ReleaseHandle(s: State, h: HandleId): State
    requires h in s.handles
  {
    var e := s.handles[h].(refCount := s.handles[h].refCount - 1);
    s.(handles := s.handles[h := if e.refCount <= 0 && e.evicted then e.Close() else e])
  }

  /** `CloseAndRemoveBucketDB`: unmap; close now or leave it to the last release. */
  function RemoveBucket(s: State, bucket: Name): State
    requires bucket in s.active ==> Cached(s, bucket)
  {
    if bucket !in s.active then s
    else
      var e := s.handles[s.active[bucket]];
      var e' := if e.refCount > 0 then e.(evicted := true) else e.Close();
      s.(handles := s.handles[s.active[bucket] := e'], active := s.active - {bucket})
  }

  function Outcome(r: Result): Phase {
    match r
    case Failed => Idle
    case Got(h) => Using(h)
  }

  ghost function Do(s: State, step: Step): State
    requires Enabled(s, step)
  {
    match step
    case Hit(u, bucket, now) => Join(s, bucket, now).Moved(u, Using(s.active[bucket]))
    case Miss(u, bucket) => s.Moved(u, Missed(bucket))
    case Refuse(u) => s.Moved(u, Idle)
    case Contend(u, newLock) =>
      var b := s.PhaseOf(u).bucket;
      s.(init := LockMap.Enter(s.init, u, b, LockMap.Write, newLock)).Moved(u, Contending(b))
    case Lock(u) => s.(init := LockMap.Acquire(s.init, u)).Moved(u, Inside(s.PhaseOf(u).bucket))
    case RecheckHit(u, now) =>
      var b := s.PhaseOf(u).bucket;
      Join(s, b, now).Moved(u, Departing(b, Got(s.active[b])))
    case RecheckMiss(u) => s.Moved(u, Opening(s.PhaseOf(u).bucket))
    case OpenFails(u) => s.Moved(u, Departing(s.PhaseOf(u).bucket, Failed))
    case OpenWorks(u) => s.Moved(u, Opened(s.PhaseOf(u).bucket))
    case LoseRace(u, now) =>
      var b := s.PhaseOf(u).bucket;
      Join(s, b, now).Moved(u, Departing(b, Got(s.active[b])))
    case Insert(u, h, now, victim) =>
      var b := s.PhaseOf(u).bucket;
      var t := Drop(s, victim);
      t.(active := t.active[b := h], handles := t.handles[h := Handle(b, 1, now, false, 0)])
       .Moved(u, Departing(b, Got(h)))
    case Unlock(u) => s.(init := LockMap.Unlock(s.init, u)).Moved(u, Unlocked(s.PhaseOf(u).bucket, s.PhaseOf(u).result))
    case Depart(u) => s.(init := LockMap.Leave(s.init, u)).Moved(u, Outcome(s.PhaseOf(u).result))
    case Release(u) => ReleaseHandle(s, s.PhaseOf(u).h).Moved(u, Idle)
    case Remove(bucket) => RemoveBucket(s, bucket)
  }

  // ----- the invariant -----

  /** The goroutines that hold a reference. */
  function Users(s: State, h: HandleId): set<User> {
    set u | u in s.phases && Has(s.phases[u], h)
  }

  predicate Mapped(s: State, h: HandleId)
    requires h in s.handles
  {
    s.handles[h].bucket in s.active && s.active[s.handles[h].bucket] == h
  }

  /** The count is the number of users; a mapped handle is open; an unmapped one
      is closed, once, as soon as nobody uses it. */
  ghost predicate HandleOk(s: State, h: HandleId)
    requires h in s.handles
  {
    var e := s.handles[h];
    && e.refCount == |Users(s, h)|
    && (if Mapped(s, h) then !e.evicted && e.closes == 0
        else (e.refCount > 0 ==> e.evicted) && e.closes == if e.refCount == 0 then 1 else 0)
  }

  /** The init lock phase that goes with a phase of the acquisition. */
  predicate Fits(p: Phase, l: LockMap.Phase) {
    match p
    case Idle => l.Out?
    case Missed(_) => l.Out?
    case Using(_) => l.Out?
    case Contending(b) => l.Waiting? && l.name == b && l.mode == LockMap.Write
    case Unlocked(b, _) => l.Leaving? && l.name == b
    case _ => l.Holding? && l.name == p.bucket && l.mode == LockMap.Write
  }

  /** Between the second look and the insertion nobody else maps the bucket. */
  ghost predicate PhaseOk(s: State, u: User) {
    var p := s.PhaseOf(u);
    && Fits(p, s.init.PhaseOf(u))
    && (p.Opening? || p.Opened? ==> p.bucket !in s.active)
    && (forall h :: Has(p, h) ==> h in s.handles)
    && OwnHandle(s, p)
  }

  /** What is about to be handed out is a handle of the bucket asked for. */
  predicate OwnHandle(s: State, p: Phase) {
    (p.Departing? || p.Unlocked?) && p.result.Got? && p.result.h in s.handles ==>
      s.handles[p.result.h].bucket == p.bucket
  }

  ghost predicate ActiveOk(s: State) {
    forall b :: b in s.active ==> s.active[b] in s.handles && s.handles[s.active[b]].bucket == b
  }

  ghost predicate Inv(s: State) {
    && LockMap.Inv(s.init)
    && ActiveOk(s)
    && (forall h :: h in s.handles ==> HandleOk(s, h))
    && (forall u :: PhaseOk(s, u))
  }

  lemma UsersMove(s: State, s': State, u: User, h: HandleId)
    requires forall w :: w != u ==> s.PhaseOf(w) == s'.PhaseOf(w)
    ensures Users(s', h) == if Has(s'.PhaseOf(u), h) then Users(s, h) + {u} else Users(s, h) - {u}
    ensures u in Users(s, h) <==> Has(s.PhaseOf(u), h)
  {
    forall w ensures w in Users(s, h) <==> Has(s.PhaseOf(w), h) {
    }
    forall w ensures w in Users(s', h) <==> Has(s'.PhaseOf(w), h) {
    }
  }

  /** A handle that the step leaves alone. */
  lemma HandleKeeps(s: State, s': State, u: User, h: HandleId)
    requires h in s.handles && HandleOk(s, h) && h in s'.handles && s'.handles[h] == s.handles[h]
    requires Mapped(s', h) <==> Mapped(s, h)
    requires forall w :: w != u ==> s.PhaseOf(w) == s'.PhaseOf(w)
    requires Has(s'.PhaseOf(u), h) <==> Has(s.PhaseOf(u), h)
    ensures HandleOk(s', h)
  {
    UsersMove(s, s', u, h);
    assert Users(s', h) == Users(s, h);
  }

  /** Only `u` moves, and only its own part of the init locks. */
  ghost predicate OnlyMoves(s: State, s': State, u: User) {
    forall w :: w != u ==> s.PhaseOf(w) == s'.PhaseOf(w) && s.init.PhaseOf(w) == s'.init.PhaseOf(w)
  }

  /** Steps that touch no handle and no mapping. */
  lemma MoveKeeps(s: State, s': State, u: User)
    requires Inv(s) && OnlyMoves(s, s', u) && LockMap.Inv(s'.init)
    requires s'.active == s.active && s'.handles == s.handles
    requires PhaseOk(s', u) && forall h :: Has(s'.PhaseOf(u), h) <==> Has(s.PhaseOf(u), h)
    ensures Inv(s')
  {
    forall h | h in s'.handles ensures HandleOk(s', h) {
      HandleKeeps(s, s', u, h);
    }
    forall w ensures PhaseOk(s', w) {
      assert PhaseOk(s, w);
    }
  }

  lemma JoinedOk(s: State, u: User, bucket: Name, now: int, p: Phase)
    requires Cached(s, bucket) && ActiveOk(s) && HandleOk(s, s.active[bucket])
    requires !Has(s.PhaseOf(u), s.active[bucket]) && Has(p, s.active[bucket])
    ensures HandleOk(Join(s, bucket, now).Moved(u, p), s.active[bucket])
  {
    UsersMove(s, Join(s, bucket, now).Moved(u, p), u, s.active[bucket]);
  }

  lemma JoinKeeps(s: State, u: User, bucket: Name, now: int, p: Phase)
    requires Inv(s) && Cached(s, bucket) && (forall h :: !Has(s.PhaseOf(u), h))
    requires Fits(p, s.init.PhaseOf(u)) && !p.Opening? && !p.Opened? && forall h :: Has(p, h) <==> h == s.active[bucket]
    requires p.Departing? || p.Unlocked? ==> p.bucket == bucket
    ensures Inv(Join(s, bucket, now).Moved(u, p))
  {
    var s' := Join(s, bucket, now).Moved(u, p);
    var h := s.active[bucket];
    JoinedOk(s, u, bucket, now, p);
    forall k | k in s'.handles && k != h ensures HandleOk(s', k) {
      HandleKeeps(s, s', u, k);
    }
    forall w ensures PhaseOk(s', w) {
      assert PhaseOk(s, w);
    }
  }

  lemma ReleasedOk(s: State, u: User)
    requires Enabled(s, Release(u)) && HandleOk(s, s.PhaseOf(u).h)
    ensures HandleOk(Do(s, Release(u)), s.PhaseOf(u).h)
  {
    UsersMove(s, Do(s, Release(u)), u, s.PhaseOf(u).h);
  }

  lemma ReleaseKeeps(s: State, u: User)
    requires Inv(s) && Enabled(s, Release(u))
    ensures Inv(Do(s, Release(u)))
  {
    var s', h := Do(s, Release(u)), s.PhaseOf(u).h;
    assert HandleOk(s, h) && PhaseOk(s, u);
    ReleasedOk(s, u);
    forall k | k in s'.handles && k != h ensures HandleOk(s', k) {
      HandleKeeps(s, s', u, k);
    }
    forall w ensures PhaseOk(s', w) {
      assert PhaseOk(s, w);
    }
  }

  lemma RemoveKeeps(s: State, bucket: Name)
    requires Inv(s)
    ensures Inv(RemoveBucket(s, bucket))
  {
    var s' := RemoveBucket(s, bucket);
    if bucket in s.active {
      var h := s.active[bucket];
      assert HandleOk(s, h);
      assert Users(s', h) == Users(s, h);
      forall k | k in s'.handles && k != h ensures HandleOk(s', k) {
        assert HandleOk(s, k);
        assert Users(s', k) == Users(s, k);
      }
      forall w ensures PhaseOk(s', w) {
        assert PhaseOk(s, w);
      }
    }
  }

  lemma DropKeeps(s: State, victim: Victim, keep: Name)
    requires Inv(s) && IsVictim(s, keep, victim)
    ensures Inv(Drop(s, victim))
  {
    var s' := Drop(s, victim);
    if victim.Evict? {
      var h := s.active[victim.bucket];
      assert HandleOk(s, h);
      assert Users(s', h) == Users(s, h);
      forall k | k in s'.handles && k != h ensures HandleOk(s', k) {
        assert HandleOk(s, k);
        assert Users(s', k) == Users(s, k);
      }
      forall w ensures PhaseOk(s', w) {
        assert PhaseOk(s, w);
      }
    }
  }

  /** Whoever is between the second look and the insertion is alone with its bucket. */
  lemma SingleOpener(s: State, u: User, w: User)
    requires Inv(s) && u != w
    requires (s.PhaseOf(u).Opening? || s.PhaseOf(u).Opened?) && (s.PhaseOf(w).Opening? || s.PhaseOf(w).Opened?)
    ensures s.PhaseOf(u).bucket != s.PhaseOf(w).bucket
  {
    assert PhaseOk(s, u) && PhaseOk(s, w);
    LockMap.WriterIsAlone(s.init, u, w);
  }

  lemma InsertKeeps(s: State, u: User, h: HandleId, now: int, victim: Victim)
    requires Inv(s) && Enabled(s, Insert(u, h, now, victim))
    ensures Inv(Do(s, Insert(u, h, now, victim)))
  {
    var b := s.PhaseOf(u).bucket;
    var t := Drop(s, victim);
    var s' := Do(s, Insert(u, h, now, victim));
    DropKeeps(s, victim, b);
    assert t.PhaseOf(u) == s.PhaseOf(u);
    InsertNew(t, s', u, b, h, now);
  }

  lemma InsertNew(t: State, s': State, u: User, b: Name, h: HandleId, now: int)
    requires Inv(t) && t.PhaseOf(u) == Opened(b) && b !in t.active && h !in t.handles
    requires s' == t.(active := t.active[b := h], handles := t.handles[h := Handle(b, 1, now, false, 0)])
                    .Moved(u, Departing(b, Got(h)))
    ensures Inv(s')
  {
    assert PhaseOk(t, u);
    UsersMove(t, s', u, h);
    forall w ensures w !in Users(t, h) {
      assert PhaseOk(t, w);
      assert w in Users(t, h) ==> Has(t.PhaseOf(w), h);
    }
    assert Users(t, h) == {};
    assert Users(s', h) == {u};
    assert HandleOk(s', h);
    forall k | k in s'.handles && k != h ensures HandleOk(s', k) {
      HandleKeeps(t, s', u, k);
    }
    forall w ensures PhaseOk(s', w) {
      assert PhaseOk(t, w);
      if w != u && (t.PhaseOf(w).Opening? || t.PhaseOf(w).Opened?) {
        SingleOpener(t, u, w);
      }
    }
  }

  /** Another goroutine can never have won the race: the branch is dead. */
  lemma RaceIsImpossible(s: State, u: User, now: int)
    requires Inv(s)
    ensures !Enabled(s, LoseRace(u, now))
  {
    assert PhaseOk(s, u);
  }

  lemma ContendKeeps(s: State, u: User, newLock: LockMap.LockId)
    requires Inv(s) && Enabled(s, Contend(u, newLock))
    ensures Inv(Do(s, Contend(u, newLock)))
  {
    assert PhaseOk(s, u);
    LockMap.EnterKeeps(s.init, u, s.PhaseOf(u).bucket, LockMap.Write, newLock);
    MoveKeeps(s, Do(s, Contend(u, newLock)), u);
  }

  lemma LockKeeps(s: State, u: User)
    requires Inv(s) && Enabled(s, Lock(u))
    ensures Inv(Do(s, Lock(u)))
  {
    assert PhaseOk(s, u);
    LockMap.AcquireKeeps(s.init, u);
    MoveKeeps(s, Do(s, Lock(u)), u);
  }

  lemma UnlockKeeps(s: State, u: User)
    requires Inv(s) && Enabled(s, Unlock(u))
    ensures Inv(Do(s, Unlock(u)))
  {
    assert PhaseOk(s, u);
    LockMap.UnlockKeeps(s.init, u);
    MoveKeeps(s, Do(s, Unlock(u)), u);
  }

  lemma DepartKeeps(s: State, u: User)
    requires Inv(s) && Enabled(s, Depart(u))
    ensures Inv(Do(s, Depart(u)))
  {
    assert PhaseOk(s, u);
    LockMap.LeaveKeeps(s.init, u);
    MoveKeeps(s, Do(s, Depart(u)), u);
  }

  lemma PlainStepKeeps(s: State, step: Step)
    requires Inv(s) && Enabled(s, step)
    requires step.Miss? || step.Refuse? || step.RecheckMiss? || step.OpenFails? || step.OpenWorks?
    ensures Inv(Do(s, step))
  {
    assert PhaseOk(s, step.u);
    MoveKeeps(s, Do(s, step), step.u);
  }

  /** Every step of every goroutine keeps the invariant. */
  lemma StepKeeps(s: State, step: Step)
    requires Inv(s) && Enabled(s, step)
    ensures Inv(Do(s, step))
  {
    match step
    case Hit(u, bucket, now) =>
      assert PhaseOk(s, u);
      JoinKeeps(s, u, bucket, now, Using(s.active[bucket]));
    case RecheckHit(u, now) =>
      assert PhaseOk(s, u);
      var b := s.PhaseOf(u).bucket;
      JoinKeeps(s, u, b, now, Departing(b, Got(s.active[b])));
    case LoseRace(u, now) => RaceIsImpossible(s, u, now);
    case Insert(u, h, now, victim) => InsertKeeps(s, u, h, now, victim);
    case Release(u) => ReleaseKeeps(s, u);
    case Remove(bucket) => RemoveKeeps(s, bucket);
    case Contend(u, newLock) => ContendKeeps(s, u, newLock);
    case Lock(u) => LockKeeps(s, u);
    case Unlock(u) => UnlockKeeps(s, u);
    case Depart(u) => DepartKeeps(s, u);
    case _ => PlainStepKeeps(s, step);
  }

  // ----- whole runs -----

  /** The interleaving `steps` leads from `s` to `s'`. */
  ghost predicate Leads(s: State, steps: seq<Step>, s': State)
    decreases |steps|
  {
    if steps == [] then s == s' else Enabled(s, steps[0]) && Leads(Do(s, steps[0]), steps[1..], s')
  }

  lemma {:induction false} RunKeeps(s: State, steps: seq<Step>, s': State)
    requires Inv(s) && Leads(s, steps, s')
    ensures Inv(s')
    decreases |steps|
  {
    if steps != [] {
      StepKeeps(s, steps[0]);
      RunKeeps(Do(s, steps[0]), steps[1..], s');
    }
  }

  lemma InitialInv()
    ensures Inv(INITIAL)
  {
  }

  /** In every interleaving: a handle that somebody uses is open, no handle is
      closed twice, a mapped handle is open and not evicted, an unmapped one is
      closed exactly when its last user is gone, and the count is the number of users. */
  lemma HandlesAreSafe(steps: seq<Step>, s: State)
    requires Leads(INITIAL, steps, s)
    ensures forall u, h :: Has(s.PhaseOf(u), h) ==> h in s.handles && s.handles[h].closes == 0
    ensures forall h :: h in s.handles ==> s.handles[h].closes <= 1 && s.handles[h].refCount == |Users(s, h)|
    ensures forall b :: b in s.active ==>
              s.active[b] in s.handles && s.handles[s.active[b]].closes == 0 && !s.handles[s.active[b]].evicted
    ensures forall h :: h in s.handles && !Mapped(s, h) ==> (s.handles[h].closes == 1 <==> Users(s, h) == {})
  {
    InitialInv();
    RunKeeps(INITIAL, steps, s);
    forall u, h | Has(s.PhaseOf(u), h) ensures h in s.handles && s.handles[h].closes == 0 {
      assert PhaseOk(s, u);
      assert HandleOk(s, h) && u in Users(s, h);
    }
    forall b | b in s.active ensures s.handles[s.active[b]].closes == 0 && !s.handles[s.active[b]].evicted {
      assert HandleOk(s, s.active[b]);
    }
    forall h | h in s.handles ensures !Mapped(s, h) ==> (s.handles[h].closes == 1 <==> Users(s, h) == {}) {
      assert HandleOk(s, h);
    }
  }

  /** A release closes the database exactly when the entry left the cache and
      the caller was its last user. */
  lemma ReleaseClosesLast(s: State, u: User)
    requires Inv(s) && Enabled(s, Release(u))
    ensures var (h, s') := (s.PhaseOf(u).h, Do(s, Release(u)));
            && s.handles[h].closes == 0
            && (s'.handles[h].closes == 1 <==> !Mapped(s, h) && Users(s, h) == {u})
  {
    var h, s' := s.PhaseOf(u).h, Do(s, Release(u));
    assert HandleOk(s, h) && u in Users(s, h);
    UsersMove(s, s', u, h);
    assert |Users(s', h)| == |Users(s, h)| - 1;
    assert Users(s', h) == {} <==> Users(s, h) == {u};
  }

  /** No other step closes a handle that somebody uses; steps that close one
      take it out of the cache. */
  lemma OnlyIdleHandlesClose(s: State, step: Step, h: HandleId)
    requires Inv(s) && Enabled(s, step) && h in s.handles && !step.Release?
    ensures h in Do(s, step).handles
    ensures Do(s, step).handles[h].closes > s.handles[h].closes
            ==> Users(s, h) == {} && Mapped(s, h) && !Mapped(Do(s, step), h)
  {
    assert HandleOk(s, h);
    if step.LoseRace? {
      RaceIsImpossible(s, step.u, step.now);
    }
  }

  /** A goroutine comes out with a handle of the bucket it asked for, whatever the
      others do in between. */
  lemma HandleOfTheBucket(s: State, step: Step, u: User)
    requires Inv(s) && Enabled(s, step)
    ensures var (p, q) := (s.PhaseOf(u), Do(s, step).PhaseOf(u));
            && (p.Idle? ==> q.Idle? || (step.Hit? && q.Using?) || (step.Miss? && q == Missed(step.bucket)))
            && (!p.Idle? && !p.Using? ==> q.Idle? || q.Using? || q.bucket == p.bucket)
            && (q.Using? && !p.Using? ==>
                 && q.h in Do(s, step).handles
                 && Do(s, step).handles[q.h].bucket == if step.Hit? then step.bucket else p.bucket)
  {
    assert PhaseOk(s, u);
  }

  /** Room is made only from the cap on and only by closing an unused handle, one
      that no unused handle was used before; if none goes, all are in use. */
  lemma LeastRecentlyUsedGoes(s: State, u: User, h: HandleId, now: int, victim: Victim)
    requires Inv(s) && Enabled(s, Insert(u, h, now, victim))
    ensures var s' := Do(s, Insert(u, h, now, victim));
            && s'.handles[h] == Handle(s.PhaseOf(u).bucket, 1, now, false, 0)
            && match victim
               case Nobody =>
                 && s'.active == s.active[s.PhaseOf(u).bucket := h]
                 && (|s.active| < 100 || forall b :: b in s.active ==> Users(s, s.active[b]) != {})
               case Evict(v) =>
                 && s'.active == (s.active - {v})[s.PhaseOf(u).bucket := h]
                 && |s.active| >= 100 && v in s.active && Users(s, s.active[v]) == {}
                 && s'.handles[s.active[v]].closes == 1
                 && (forall b :: b in s.active && Users(s, s.active[b]) == {} ==>
                       s.handles[s.active[v]].lastUsed <= s.handles[s.active[b]].lastUsed)
  {
    forall b | b in s.active ensures IsIdle(s, b, s.PhaseOf(u).bucket) <==> Users(s, s.active[b]) == {} {
      assert HandleOk(s, s.active[b]);
    }
    if victim.Evict? {
      assert HandleOk(s, s.active[victim.bucket]);
    }
  }

  /** The steps that hand out an existing handle. */
  predicate Reuses(s: State, step: Step, h: HandleId) {
    || (step.Hit? && step.bucket in s.active && h == s.active[step.bucket])
    || (step.RecheckHit? && s.PhaseOf(step.u).Inside? && s.PhaseOf(step.u).bucket in s.active
        && h == s.active[s.PhaseOf(step.u).bucket])
  }

  function Stamp(step: Step): int {
    match step
    case Hit(_, _, now) => now
    case RecheckHit(_, now) => now
    case _ => 0
  }

  /** A handle was last used when it was last handed out. */
  lemma HandingOutStamps(s: State, step: Step, h: HandleId)
    requires Inv(s) && Enabled(s, step) && h in s.handles
    ensures Reuses(s, step, h) ==> Do(s, step).handles[h].lastUsed == Stamp(step)
    ensures !Reuses(s, step, h) ==> Do(s, step).handles[h].lastUsed == s.handles[h].lastUsed
  {
    if step.LoseRace? {
      RaceIsImpossible(s, step.u, step.now);
    }
  }

  /** Removing a bucket unmaps it, and closes its handle at once if nobody uses it. */
  lemma RemoveUnmaps(s: State, bucket: Name)
    requires Inv(s) && Enabled(s, Remove(bucket))
    ensures var s' := Do(s, Remove(bucket));
            && s'.active == s.active - {bucket} && s'.phases == s.phases
            && (bucket in s.active ==>
                 s'.handles[s.active[bucket]].closes == if Users(s, s.active[bucket]) == {} then 1 else 0)
  {
    if bucket in s.active {
      assert HandleOk(s, s.active[bucket]);
    }
  }

  /** A bucket has an init lock exactly while somebody initialises it. */
  lemma InitLocksComeAndGo(steps: seq<Step>, s: State, bucket: Name)
    requires Leads(INITIAL, steps, s)
    ensures bucket in s.init.table <==> exists u :: Initialises(s.PhaseOf(u), bucket)
  {
    InitialInv();
    RunKeeps(INITIAL, steps, s);
    if bucket in s.init.table {
      assert LockMap.LockMatches(s.init, bucket);
      var u :| u in LockMap.Contenders(s.init, bucket);
      assert PhaseOk(s, u);
      assert Initialises(s.PhaseOf(u), bucket);
    }
    forall u | Initialises(s.PhaseOf(u), bucket) ensures bucket in s.init.table {
      assert PhaseOk(s, u);
      assert !s.init.PhaseOf(u).Out?;
    }
  }

  predicate Initialises(p: Phase, bucket: Name) {
    !p.Idle? && !p.Missed? && !p.Using? && p.bucket == bucket
  }

  // ----- the bound -----

  /** The cached buckets whose handle is in use. */
  function Busy(s: State): set<Name> {
    set b | b in s.active && Cached(s, b) && s.handles[s.active[b]].refCount > 0
  }

  function Max(a: nat, b: nat): nat {
    if a < b then b else a
  }

  /** The most handles in use at the same time during the run. */
  ghost function Peak(s: State, steps: seq<Step>): nat
    decreases |steps|
  {
    if steps == [] || !Enabled(s, steps[0]) then |Busy(s)| else Max(|Busy(s)|, Peak(Do(s, steps[0]), steps[1..]))
  }

  /** One step grows the cache only below the cap or when everything cached is in use. */
  lemma StepGrowsWithin(s: State, step: Step)
    requires Inv(s) && Enabled(s, step)
    ensures |Do(s, step).active| <= Max(|s.active|, Max(MAX_OPEN, |Busy(Do(s, step))|))
  {
    if step.Insert? {
      InsertGrowsWithin(s, step.u, step.h, step.now, step.victim);
    } else if step.Remove? {
      assert Do(s, step).active.Keys == s.active.Keys - {step.bucket};
    }
  }

  lemma InsertGrowsWithin(s: State, u: User, h: HandleId, now: int, victim: Victim)
    requires Inv(s) && Enabled(s, Insert(u, h, now, victim))
    ensures var s' := Do(s, Insert(u, h, now, victim));
            |s'.active| <= Max(|s.active|, Max(MAX_OPEN, |Busy(s')|))
  {
    var b, s' := s.PhaseOf(u).bucket, Do(s, Insert(u, h, now, victim));
    if victim.Evict? {
      SwapSize(s.active, victim.bucket, b, h);
    } else {
      AddSize(s.active, b, h);
      if |s.active| >= MAX_OPEN {
        NobodyIdleThenAllBusy(s, s', b, h, now);
      }
    }
  }

  lemma SwapSize(m: map<Name, HandleId>, v: Name, b: Name, h: HandleId)
    requires v in m && b !in m
    ensures |(m - {v})[b := h]| == |m|
  {
    assert (m - {v})[b := h].Keys == m.Keys - {v} + {b};
  }

  lemma AddSize(m: map<Name, HandleId>, b: Name, h: HandleId)
    requires b !in m
    ensures |m[b := h]| == |m| + 1 && m[b := h].Keys == m.Keys + {b}
  {
    assert m[b := h].Keys == m.Keys + {b};
  }

  lemma NobodyIdleThenAllBusy(s: State, s': State, b: Name, h: HandleId, now: int)
    requires ActiveOk(s) && h !in s.handles && forall n :: !IsIdle(s, n, b)
    requires s'.active == s.active[b := h] && s'.handles == s.handles[h := Handle(b, 1, now, false, 0)]
    ensures Busy(s') == s'.active.Keys
  {
    forall n | n in s'.active ensures n in Busy(s') {
      assert n == b || !IsIdle(s, n, b);
    }
  }

  /** The cache never holds more handles than the cap or, if that is more, than
      were in use at one time. */
  lemma {:induction false} RunGrowsWithin(s: State, steps: seq<Step>, s': State, bound: nat)
    requires Inv(s) && Leads(s, steps, s') && |s.active| <= bound && Max(MAX_OPEN, Peak(s, steps)) <= bound
    ensures |s'.active| <= bound
    decreases |steps|
  {
    if steps != [] {
      var t := Do(s, steps[0]);
      StepKeeps(s, steps[0]);
      StepGrowsWithin(s, steps[0]);
      PeakIncludesNow(t, steps[1..]);
      RunGrowsWithin(t, steps[1..], s', bound);
    }
  }

  lemma PeakIncludesNow(s: State, steps: seq<Step>)
    ensures |Busy(s)| <= Peak(s, steps)
  {
  }

  lemma CacheIsBounded(steps: seq<Step>, s: State)
    requires Leads(INITIAL, steps, s)
    ensures |s.active| <= 100 || |s.active| <= Peak(INITIAL, steps)
  {
    InitialInv();
    RunGrowsWithin(INITIAL, steps, s, Max(MAX_OPEN, Peak(INITIAL, steps)));
  }

  // ----- the eviction loop -----

  /** `evictLocked` walks the map in any order; buckets have non-empty names, so
      the empty name stands for "none yet". */
  method FindVictim(s: State, keep: Name) returns (victim: Victim)
    requires ActiveOk(s) && [] !in s.active
    ensures IsVictim(s, keep, victim)
  {
    if |s.active| < MAX_OPEN {
      return Nobody;
    }
    var oldestBucket: Name, oldestTime := [], 0;
    var names := s.active.Keys;
    while names != {}
      invariant names <= s.active.Keys
      invariant oldestBucket == [] ==> forall b :: IsIdle(s, b, keep) ==> b in names
      invariant oldestBucket != [] ==>
                  && IsIdle(s, oldestBucket, keep) && s.handles[s.active[oldestBucket]].lastUsed == oldestTime
                  && forall b :: IsIdle(s, b, keep) && b !in names ==> oldestTime <= s.handles[s.active[b]].lastUsed
      decreases |names|
    {
      var name :| name in names;
      names := names - {name};
      var entry := s.handles[s.active[name]];
      if !(name == keep || entry.refCount > 0) {
        if oldestBucket == [] || entry.lastUsed < oldestTime {
          oldestBucket, oldestTime := name, entry.lastUsed;
        }
      }
    }
    victim := if oldestBucket == [] then Nobody else Evict(oldestBucket);
  }
}
