/** The refcounted lock map: locks made on first use and removed by the last
    user (`acquireBucketLock`; `lockKey` and the init locks take it in write mode
    only). Each critical section under the map's own mutex, and each operation of
    a lock, is one atomic step. */
module LockMap {
  type User = nat
  type Name = seq<int>
  type LockId = nat

  datatype Mode = Read | Write

  /** Where a user stands: counted in and waiting for the lock, holding it, or
      past unlocking but not yet counted out. */
  datatype Phase =
    | Out
    | Waiting(name: Name, lock: LockId, mode: Mode)
    | Holding(name: Name, lock: LockId, mode: Mode)
    | Leaving(name: Name, lock: LockId)

  datatype Lock = Lock(refCount: int, writer: set<User>, readers: set<User>)

  datatype State = State(table: map<Name, LockId>, locks: map<LockId, Lock>, phases: map<User, Phase>)
  {
    function PhaseOf(u: User): Phase {
      if u in phases then phases[u] else Out
    }
  }

  const INITIAL := State(map[], map[], map[])

  // ----- the steps -----

  /** The mutex and the read-write lock let a user in when nobody conflicts. */
  predicate Free(l: Lock, mode: Mode) {
    l.writer == {} && (mode == Write ==> l.readers == {})
  }

  predicate CanEnter(s: State, u: User, name: Name, newLock: LockId) {
    s.PhaseOf(u).Out? && newLock !in s.locks
  }

  /** Look the lock up or make it, and count the user in. */
  function Enter(s: State, u: User, name: Name, mode: Mode, newLock: LockId): State {
    var id := if name in s.table then s.table[name] else newLock;
    var l := if id in s.locks then s.locks[id] else Lock(0, {}, {});
    State(s.table[name := id], s.locks[id := l.(refCount := l.refCount + 1)], s.phases[u := Waiting(name, id, mode)])
  }

  predicate CanLock(s: State, u: User) {
    var p := s.PhaseOf(u);
    p.Waiting? && p.lock in s.locks && Free(s.locks[p.lock], p.mode)
  }

  function Acquire(s: State, u: User): State
    requires CanLock(s, u)
  {
    var p := s.PhaseOf(u);
    var l := s.locks[p.lock];
    var l' := if p.mode == Write then l.(writer := {u}) else l.(readers := l.readers + {u});
    s.(locks := s.locks[p.lock := l'], phases := s.phases[u := Holding(p.name, p.lock, p.mode)])
  }

  predicate CanUnlock(s: State, u: User) {
    var p := s.PhaseOf(u);
    p.Holding? && p.lock in s.locks
  }

  function Unlock(s: State, u: User): State
    requires CanUnlock(s, u)
  {
    var p := s.PhaseOf(u);
    var l := s.locks[p.lock];
    var l' := if p.mode == Write then l.(writer := {}) else l.(readers := l.readers - {u});
    s.(locks := s.locks[p.lock := l'], phases := s.phases[u := Leaving(p.name, p.lock)])
  }

  predicate CanLeave(s: State, u: User) {
    var p := s.PhaseOf(u);
    p.Leaving? && p.lock in s.locks
  }

  /** Count the user out; the last one deletes the name from the map. */
  function Leave(s: State, u: User): State
    requires CanLeave(s, u)
  {
    var p := s.PhaseOf(u);
    var l := s.locks[p.lock];
    var l' := l.(refCount := l.refCount - 1);
    State(if l'.refCount == 0 then s.table - {p.name} else s.table, s.locks[p.lock := l'], s.phases[u := Out])
  }

  datatype Step =
    | EnterStep(u: User, name: Name, mode: Mode, newLock: LockId)
    | LockStep(u: User)
    | UnlockStep(u: User)
    | LeaveStep(u: User)

  predicate Enabled(s: State, step: Step) {
    match step
    case EnterStep(u, name, _, newLock) => CanEnter(s, u, name, newLock)
    case LockStep(u) => CanLock(s, u)
    case UnlockStep(u) => CanUnlock(s, u)
    case LeaveStep(u) => CanLeave(s, u)
  }

  function Do(s: State, step: Step): State
    requires Enabled(s, step)
  {
    match step
    case EnterStep(u, name, mode, newLock) => Enter(s, u, name, mode, newLock)
    case LockStep(u) => Acquire(s, u)
    case UnlockStep(u) => Unlock(s, u)
    case LeaveStep(u) => Leave(s, u)
  }

  // ----- the invariant -----

  /** Everybody counted in under a name. */
  function Contenders(s: State, name: Name): set<User> {
    set u | u in s.phases && !s.phases[u].Out? && s.phases[u].name == name
  }

  ghost predicate LockMatches(s: State, name: Name)
    requires name in s.table
  {
    var id := s.table[name];
    && id in s.locks
    && s.locks[id].refCount == |Contenders(s, name)| > 0
    && (forall u :: u in s.locks[id].writer <==> s.PhaseOf(u) == Holding(name, id, Write))
    && (forall u :: u in s.locks[id].readers <==> s.PhaseOf(u) == Holding(name, id, Read))
    && |s.locks[id].writer| <= 1
    && (s.locks[id].writer != {} ==> s.locks[id].readers == {})
  }

  /** All contenders of a name share the one lock the map has for it, its count is
      the number of them, the lock knows its holders, and a name without
      contenders is not in the map. */
  ghost predicate Inv(s: State) {
    && (forall u {:trigger s.PhaseOf(u)} ::
         !s.PhaseOf(u).Out? ==> s.PhaseOf(u).name in s.table && s.table[s.PhaseOf(u).name] == s.PhaseOf(u).lock)
    && (forall a, b :: a in s.table && b in s.table && s.table[a] == s.table[b] ==> a == b)
    && (forall name :: name in s.table ==> LockMatches(s, name))
  }

  lemma ContendersMove(s: State, s': State, u: User, name: Name)
    requires forall w :: w != u ==> s.PhaseOf(w) == s'.PhaseOf(w)
    ensures var isIn := !s'.PhaseOf(u).Out? && s'.PhaseOf(u).name == name;
            Contenders(s', name) == if isIn then Contenders(s, name) + {u} else Contenders(s, name) - {u}
  {
    forall w ensures w in Contenders(s, name) <==> !s.PhaseOf(w).Out? && s.PhaseOf(w).name == name {
    }
    forall w ensures w in Contenders(s', name) <==> !s'.PhaseOf(w).Out? && s'.PhaseOf(w).name == name {
    }
  }

  /** A name that the moving user neither leaves nor joins is as it was. */
  lemma OtherNameKeeps(s: State, s': State, u: User, name: Name)
    requires name in s.table && LockMatches(s, name) && name in s'.table && s'.table[name] == s.table[name]
    requires s.table[name] in s'.locks && s'.locks[s.table[name]] == s.locks[s.table[name]]
    requires forall w :: w != u ==> s.PhaseOf(w) == s'.PhaseOf(w)
    requires s.PhaseOf(u).Out? || s.PhaseOf(u).name != name
    requires s'.PhaseOf(u).Out? || s'.PhaseOf(u).name != name
    ensures LockMatches(s', name)
  {
    ContendersMove(s, s', u, name);
    assert u !in Contenders(s, name);
    var l := s.locks[s.table[name]];
    assert u !in l.writer && u !in l.readers;
  }

  lemma EnterKeeps(s: State, u: User, name: Name, mode: Mode, newLock: LockId)
    requires Inv(s) && CanEnter(s, u, name, newLock)
    ensures Inv(Enter(s, u, name, mode, newLock))
  {
    var s' := Enter(s, u, name, mode, newLock);
    if name in s.table {
      EnterOld(s, u, name, mode, newLock);
    } else {
      EnterNew(s, u, name, mode, newLock);
    }
    forall w | !s'.PhaseOf(w).Out?
        ensures s'.PhaseOf(w).name in s'.table && s'.table[s'.PhaseOf(w).name] == s'.PhaseOf(w).lock {
      assert w == u || s'.PhaseOf(w) == s.PhaseOf(w);
    }
    forall n | n in s'.table && n != name ensures LockMatches(s', n) {
      assert LockMatches(s, n);
      OtherNameKeeps(s, s', u, n);
    }
  }

  lemma EnterOld(s: State, u: User, name: Name, mode: Mode, newLock: LockId)
    requires Inv(s) && CanEnter(s, u, name, newLock) && name in s.table
    ensures LockMatches(Enter(s, u, name, mode, newLock), name)
  {
    ContendersMove(s, Enter(s, u, name, mode, newLock), u, name);
    assert u !in Contenders(s, name) && LockMatches(s, name);
    assert u !in s.locks[s.table[name]].writer && u !in s.locks[s.table[name]].readers;
  }

  lemma EnterNew(s: State, u: User, name: Name, mode: Mode, newLock: LockId)
    requires Inv(s) && CanEnter(s, u, name, newLock) && name !in s.table
    ensures LockMatches(Enter(s, u, name, mode, newLock), name)
  {
    var s' := Enter(s, u, name, mode, newLock);
    ContendersMove(s, s', u, name);
    forall w ensures w !in Contenders(s, name) && (s.PhaseOf(w).Out? || s.PhaseOf(w).name != name) {
      assert s.PhaseOf(w).Out? || s.PhaseOf(w).name in s.table;
    }
    assert Contenders(s, name) == {};
    assert Contenders(s', name) == {u};
    assert s'.locks[newLock] == Lock(1, {}, {});
    assert forall w :: w != u ==> s'.PhaseOf(w) == s.PhaseOf(w);
  }

  lemma AcquireKeeps(s: State, u: User)
    requires Inv(s) && CanLock(s, u)
    ensures Inv(Acquire(s, u))
  {
    var s', p := Acquire(s, u), s.PhaseOf(u);
    ContendersMove(s, s', u, p.name);
    assert LockMatches(s, p.name) && u in Contenders(s, p.name);
    assert Contenders(s', p.name) == Contenders(s, p.name);
    assert LockMatches(s', p.name);
    forall n | n in s'.table && n != p.name ensures LockMatches(s', n) {
      assert LockMatches(s, n);
      OtherNameKeeps(s, s', u, n);
    }
  }

  lemma UnlockKeeps(s: State, u: User)
    requires Inv(s) && CanUnlock(s, u)
    ensures Inv(Unlock(s, u))
  {
    var s', p := Unlock(s, u), s.PhaseOf(u);
    ContendersMove(s, s', u, p.name);
    assert LockMatches(s, p.name) && u in Contenders(s, p.name);
    assert Contenders(s', p.name) == Contenders(s, p.name);
    if p.mode == Write {
      forall w ensures s'.PhaseOf(w) != Holding(p.name, p.lock, Write) {
        Singleton(s.locks[p.lock].writer, u, w);
      }
    }
    assert LockMatches(s', p.name);
    forall n | n in s'.table && n != p.name ensures LockMatches(s', n) {
      assert LockMatches(s, n);
      OtherNameKeeps(s, s', u, n);
    }
  }

  lemma LeaveKeeps(s: State, u: User)
    requires Inv(s) && CanLeave(s, u)
    ensures Inv(Leave(s, u))
  {
    var s', p := Leave(s, u), s.PhaseOf(u);
    ContendersMove(s, s', u, p.name);
    assert LockMatches(s, p.name) && u in Contenders(s, p.name);
    assert |Contenders(s', p.name)| == |Contenders(s, p.name)| - 1;
    assert u !in s.locks[p.lock].writer && u !in s.locks[p.lock].readers;
    forall w | !s'.PhaseOf(w).Out?
        ensures s'.PhaseOf(w).name in s'.table && s'.table[s'.PhaseOf(w).name] == s'.PhaseOf(w).lock {
      assert s.PhaseOf(w) == s'.PhaseOf(w);
      if s'.PhaseOf(w).name == p.name {
        assert w in Contenders(s', p.name);
      }
    }
    if p.name in s'.table {
      assert LockMatches(s', p.name);
    }
    forall n | n in s'.table && n != p.name ensures LockMatches(s', n) {
      assert LockMatches(s, n);
      OtherNameKeeps(s, s', u, n);
    }
  }

  /** Every step of every user keeps the invariant. */
  lemma StepKeeps(s: State, step: Step)
    requires Inv(s) && Enabled(s, step)
    ensures Inv(Do(s, step))
  {
    match step
    case EnterStep(u, name, mode, newLock) => EnterKeeps(s, u, name, mode, newLock);
    case LockStep(u) => AcquireKeeps(s, u);
    case UnlockStep(u) => UnlockKeeps(s, u);
    case LeaveStep(u) => LeaveKeeps(s, u);
  }

  // ----- whole runs -----

  /** The interleaving `steps` leads from `s` to `s'`. */
  ghost predicate Leads(s: State, steps: seq<Step>, s': State)
    decreases |steps|
  {
    if steps == [] then s == s' else Enabled(s, steps[0]) && Leads(Do(s, steps[0]), steps[1..], s')
  }

  lemma {:induction false} RunKeeps(s: State, steps: seq<Step>, s': State)
    requires Inv(s) && Leads(s, steps, s')
    ensures Inv(s')
    decreases |steps|
  {
    if steps != [] {
      StepKeeps(s, steps[0]);
      RunKeeps(Do(s, steps[0]), steps[1..], s');
    }
  }

  /** In every reachable state: a writer is alone with its name, all contenders of
      a name share one lock, its count is their number, and the map holds exactly
      the names somebody contends for. */
  lemma MutualExclusion(steps: seq<Step>, s: State, u: User, w: User)
    requires Leads(INITIAL, steps, s)
    ensures s.PhaseOf(u).Holding? && s.PhaseOf(w).Holding? && s.PhaseOf(u).name == s.PhaseOf(w).name
            && s.PhaseOf(u).mode == Write ==>
              u == w
    ensures !s.PhaseOf(u).Out? && !s.PhaseOf(w).Out? && s.PhaseOf(u).name == s.PhaseOf(w).name
            ==> s.PhaseOf(u).lock == s.PhaseOf(w).lock
    ensures forall name :: name in s.table <==> Contenders(s, name) != {}
    ensures forall name ::
              name in s.table ==> s.table[name] in s.locks && s.locks[s.table[name]].refCount == |Contenders(s, name)|
  {
    RunKeeps(INITIAL, steps, s);
    forall name | Contenders(s, name) != {} ensures name in s.table {
      var x :| x in Contenders(s, name);
      assert !s.PhaseOf(x).Out?;
    }
    WriterIsAlone(s, u, w);
  }

  lemma WriterIsAlone(s: State, u: User, w: User)
    requires Inv(s)
    ensures s.PhaseOf(u).Holding? && s.PhaseOf(w).Holding? && s.PhaseOf(u).name == s.PhaseOf(w).name
            && s.PhaseOf(u).mode == Write ==>
              u == w
  {
    var p, q := s.PhaseOf(u), s.PhaseOf(w);
    if p.Holding? && q.Holding? && p.name == q.name && p.mode == Write {
      assert LockMatches(s, p.name);
      Singleton(s.locks[p.lock].writer, u, w);
    }
  }

  lemma Singleton(a: set<User>, u: User, w: User)
    requires |a| <= 1
    ensures u in a && w in a ==> u == w
  {
    if u in a && w in a && u != w {
      assert {u, w} <= a;
      Smaller({u, w}, a);
    }
  }

  lemma {:induction false} Smaller(a: set<User>, b: set<User>)
    requires a <= b
    ensures |a| <= |b|
  {
    if x :| x in a {
      Smaller(a - {x}, b - {x});
    }
  }

  // ----- the lock that the map stands for -----

  /** Who holds a name in which mode: what users of the map rely on. */
  function Holders(s: State, name: Name, mode: Mode): set<User> {
    set u | u in s.phases && Holds(s, u, name, mode)
  }

  predicate Holds(s: State, u: User, name: Name, mode: Mode) {
    s.PhaseOf(u).Holding? && s.PhaseOf(u).name == name && s.PhaseOf(u).mode == mode
  }

  /** What a read-write lock with these holders lets in. */
  predicate Admits(s: State, name: Name, mode: Mode) {
    Holders(s, name, Write) == {} && (mode == Write ==> Holders(s, name, Read) == {})
  }

  /** Only the moving user's own standing can change who holds what. */
  lemma HoldersMove(s: State, s': State, u: User, name: Name, mode: Mode)
    requires forall w :: w != u ==> s.PhaseOf(w) == s'.PhaseOf(w)
    ensures var before := Holders(s, name, mode);
            Holders(s', name, mode) == if Holds(s', u, name, mode) then before + {u} else before - {u}
    ensures u in Holders(s, name, mode) <==> Holds(s, u, name, mode)
  {
    forall w ensures w in Holders(s', name, mode) <==> Holds(s', w, name, mode) {
    }
    forall w ensures w in Holders(s, name, mode) <==> Holds(s, w, name, mode) {
    }
    forall w | w != u ensures Holds(s', w, name, mode) <==> Holds(s, w, name, mode) {
    }
  }

  predicate Wants(s: State, u: User, name: Name, mode: Mode) {
    s.PhaseOf(u).Waiting? && s.PhaseOf(u).name == name && s.PhaseOf(u).mode == mode
  }

  /** The map is a table of independent read-write locks, one per name and there
      from the start: taking a lock adds a holder that the others admit, unlocking
      removes it, counting in and out changes no holder. */
  lemma RefinesLockTable(s: State, step: Step, name: Name, mode: Mode)
    requires Inv(s) && Enabled(s, step)
    ensures var (u, before, now) := (step.u, Holders(s, name, mode), Holders(Do(s, step), name, mode));
            match step
            case LockStep(_) => if Wants(s, u, name, mode) then Admits(s, name, mode)
                                && now == before + {u} else now == before
            case UnlockStep(_) => if Holds(s, u, name, mode) then u in before && now == before - {u} else now == before
            case _ => now == before
  {
    var s' := Do(s, step);
    assert forall w :: w != step.u ==> s.PhaseOf(w) == s'.PhaseOf(w);
    HoldersMove(s, s', step.u, name, mode);
    if step.LockStep? && Wants(s, step.u, name, mode) {
      NobodyConflicts(s, step.u, name);
    }
  }

  /** A free lock object means that nobody holds the name in a conflicting mode. */
  lemma NobodyConflicts(s: State, u: User, name: Name)
    requires Inv(s) && CanLock(s, u) && s.PhaseOf(u).name == name
    ensures Admits(s, name, s.PhaseOf(u).mode)
  {
    assert LockMatches(s, name) && s.PhaseOf(u).lock == s.table[name];
    forall w ensures w !in Holders(s, name, Write) && (s.PhaseOf(u).mode == Write ==> w !in Holders(s, name, Read)) {
      assert s.PhaseOf(w).Out? || s.PhaseOf(w).name != name || s.PhaseOf(w).lock == s.table[name];
    }
  }

  /** Nobody waits for more than the holders in a conflicting mode, and nobody has to
      wait for anything else: unlocking and counting out are always possible. */
  lemma WaitsOnlyForHolders(s: State, u: User)
    requires Inv(s)
    ensures Enabled(s, LockStep(u)) <==>
              && s.PhaseOf(u).Waiting?
              && Holders(s, s.PhaseOf(u).name, Write) == {}
              && (s.PhaseOf(u).mode == Write ==> Holders(s, s.PhaseOf(u).name, Read) == {})
    ensures Enabled(s, UnlockStep(u)) <==> s.PhaseOf(u).Holding?
    ensures Enabled(s, LeaveStep(u)) <==> s.PhaseOf(u).Leaving?
  {
    if !s.PhaseOf(u).Out? {
      assert LockMatches(s, s.PhaseOf(u).name);
    }
    if CanLock(s, u) {
      NobodyConflicts(s, u, s.PhaseOf(u).name);
    }
    if s.PhaseOf(u).Waiting? && Admits(s, s.PhaseOf(u).name, s.PhaseOf(u).mode) {
      NobodyHolds(s, s.PhaseOf(u).name);
    }
  }

  /** Whoever the lock object knows holds the name. */
  lemma NobodyHolds(s: State, name: Name)
    requires Inv(s) && name in s.table
    ensures LockMatches(s, name)
    ensures Holders(s, name, Write) == {} ==> s.locks[s.table[name]].writer == {}
    ensures Holders(s, name, Read) == {} ==> s.locks[s.table[name]].readers == {}
  {
    assert LockMatches(s, name);
    var l := s.locks[s.table[name]];
    forall w ensures w in l.writer ==> w in Holders(s, name, Write) {
      assert w in l.writer ==> Holds(s, w, name, Write);
    }
    forall w ensures w in l.readers ==> w in Holders(s, name, Read) {
      assert w in l.readers ==> Holds(s, w, name, Read);
    }
  }

  /** A user gets the lock that it asked for, in the mode that it asked for. */
  lemma LocksWhatWasAsked(s: State, step: Step, u: User)
    requires Inv(s) && Enabled(s, step)
    ensures var (p, q) := (s.PhaseOf(u), Do(s, step).PhaseOf(u));
            if u != step.u then q == p
            else
              match step
              case EnterStep(_, name, mode, _) => q.Waiting? && q.name == name && q.mode == mode
              case LockStep(_) => q == Holding(p.name, p.lock, p.mode)
              case UnlockStep(_) => q == Leaving(p.name, p.lock)
              case LeaveStep(_) => q == Out
  {
  }
}
