/** Concurrent `PutObject` calls for one key: each renames its file into place,
    stamps and records it under the key's lock. Under an unversioned or suspended
    bucket the calls overwrite one and the same file. */
module PutRace {
  import opened Keys
  import opened Records
  import opened VersionStack

  type User = nat

  /** What a call has staged: the version id it writes under, the bytes on disk,
      and the ETag and size of the data it read. */
  datatype Request = Request(key: Key, versionId: Key, stored: Key, etag: Key, size: nat)

  function InfoOf(r: Request, now: int): ObjectInfo {
    ObjectInfo(r.key, r.versionId, now, false, false, r.etag, r.size)
  }

  datatype Phase =
    | Staged(req: Request)
    | InKey(req: Request)
    | Renamed(req: Request)
    | Stamped(req: Request, now: int)
    | Stored(req: Request, now: int)
    | Done(req: Request, now: int)
  {
    predicate HoldsKey() {
      !Staged? && !Done?
    }

    predicate Unpaired() {
      Renamed? || Stamped?
    }

    predicate Succeeded() {
      Stored? || Done?
    }
  }

  /** `versions` is what the records of the key spell out (VersionStack.PutRefines). */
  datatype State = State(key: Key, versions: Stack, files: map<Key, Key>, clock: int, lock: Option<User>,
      phases: map<User, Phase>)
  {
    function Moved(u: User, p: Phase): State {
      this.(phases := phases[u := p])
    }
  }

  function Initial(key: Key): State {
    State(key, [], map[], 0, None, map[])
  }

  datatype Action = Start(req: Request) | Next(now: int)
  datatype Step = Step(u: User, action: Action)

  /** The clock never shows the same time twice. */
  predicate Enabled(s: State, step: Step) {
    match step.action
    case Start(r) => step.u !in s.phases && r.key == s.key
    case Next(now) =>
      step.u in s.phases &&
      match s.phases[step.u]
      case Staged(_) => s.lock.None?
      case Renamed(_) => s.clock < now
      case Done(_, _) => false
      case _ => true
  }

  function Do(s: State, step: Step): State
    requires Enabled(s, step)
  {
    var u := step.u;
    match step.action
    case Start(r) => s.Moved(u, Staged(r))
    case Next(now) =>
      match s.phases[u]
      case Staged(r) => s.(lock := Some(u)).Moved(u, InKey(r))
      case InKey(r) => s.(files := s.files[r.versionId := r.stored]).Moved(u, Renamed(r))
      case Renamed(r) => s.(clock := now).Moved(u, Stamped(r, now))
      case Stamped(r, t) => s.(versions := Push(s.versions, InfoOf(r, t))).Moved(u, Stored(r, t))
      case Stored(r, t) => s.(lock := None).Moved(u, Done(r, t))
  }

  // ----- the invariant -----

  /** The version and its file both come from the call of `u`, which succeeded. */
  predicate Source(s: State, x: ObjectInfo, u: User) {
    && u in s.phases && s.phases[u].Succeeded()
    && var p := s.phases[u];
       x == ObjectInfo(s.key, p.req.versionId, p.now, false, false, p.req.etag, p.req.size) && x.versionId in s.files
           && s.files[x.versionId] == p.req.stored
  }

  /** Somebody has replaced the file of this version and not yet recorded it. */
  predicate BeingReplaced(s: State, v: Key) {
    s.lock.Some? && s.lock.value in s.phases && s.phases[s.lock.value].Unpaired()
        && s.phases[s.lock.value].req.versionId == v
  }

  ghost predicate VersionOk(s: State, x: ObjectInfo) {
    x.lastModified <= s.clock && (BeingReplaced(s, x.versionId) || exists u :: Source(s, x, u))
  }

  ghost predicate UserOk(s: State, u: User)
    requires u in s.phases
  {
    var p := s.phases[u];
    && p.req.key == s.key
    && (p.HoldsKey() <==> s.lock == Some(u))
    && (p.Unpaired() ==> p.req.versionId in s.files && s.files[p.req.versionId] == p.req.stored)
    && (p.Stamped? ==> p.now <= s.clock && forall x :: x in s.versions ==> x.lastModified < p.now)
  }

  ghost predicate Inv(s: State) {
    && IsStack(s.versions, s.key)
    && (s.lock.Some? ==> s.lock.value in s.phases)
    && (forall u :: u in s.phases ==> UserOk(s, u))
    && (forall x :: x in s.versions ==> VersionOk(s, x))
  }

  /** A version whose file and call stay as they are. */
  lemma VersionKeeps(s: State, s': State, u: User, x: ObjectInfo)
    requires VersionOk(s, x) && s.clock <= s'.clock && s'.key == s.key
    requires BeingReplaced(s, x.versionId) ==> BeingReplaced(s', x.versionId)
    requires x.versionId in s.files ==> x.versionId in s'.files && s'.files[x.versionId] == s.files[x.versionId]
    requires u in s'.phases && s'.phases == s.phases[u := s'.phases[u]]
    requires u in s.phases && s.phases[u].Succeeded()
             ==> s'.phases[u].Succeeded() && s'.phases[u].req == s.phases[u].req && s'.phases[u].now == s.phases[u].now
    ensures VersionOk(s', x)
  {
    if !BeingReplaced(s, x.versionId) {
      var w :| Source(s, x, w);
      assert Source(s', x, w);
    }
  }

  lemma RenameKeeps(s: State, u: User, now: int, x: ObjectInfo)
    requires Inv(s) && Enabled(s, Step(u, Next(now))) && s.phases[u].InKey? && x in s.versions
    ensures VersionOk(Do(s, Step(u, Next(now))), x)
  {
    var s' := Do(s, Step(u, Next(now)));
    assert UserOk(s, u) && VersionOk(s, x);
    if x.versionId != s.phases[u].req.versionId {
      VersionKeeps(s, s', u, x);
    }
  }

  lemma RecordKeeps(s: State, u: User, now: int)
    requires Inv(s) && Enabled(s, Step(u, Next(now))) && s.phases[u].Stamped?
    ensures var s' := Do(s, Step(u, Next(now)));
            IsStack(s'.versions, s'.key) && forall x :: x in s'.versions ==> VersionOk(s', x)
  {
    var s', p := Do(s, Step(u, Next(now))), s.phases[u];
    var info := InfoOf(p.req, p.now);
    assert UserOk(s, u);
    PushIsStack(s.versions, s.key, info);
    assert info == Plain(info);
    forall x | x in s'.versions ensures VersionOk(s', x) {
      PushedMember(s.versions, s.key, info, x);
      if x == info {
        assert Source(s', x, u);
      } else {
        VersionKeeps(s, s', u, x);
      }
    }
  }

  /** What a push leaves of the stack carries other version ids. */
  lemma PushedMember(st: Stack, key: Key, info: ObjectInfo, x: ObjectInfo)
    requires IsStack(st, key) && info.key == key && info == Plain(info) && x in Push(st, info)
    requires forall y :: y in st ==> y.lastModified < info.lastModified
    ensures x == info || (x in st && x.versionId != info.versionId)
  {
    PushIsStack(st, key, info);
  }

  lemma QuietStepKeeps(s: State, step: Step, x: ObjectInfo)
    requires Inv(s) && Enabled(s, step) && x in s.versions
    requires step.action.Next? ==> !s.phases[step.u].InKey? && !s.phases[step.u].Stamped?
    ensures VersionOk(Do(s, step), x)
  {
    assert VersionOk(s, x);
    if step.action.Next? {
      assert UserOk(s, step.u);
    }
    VersionKeeps(s, Do(s, step), step.u, x);
  }

  lemma UsersKeep(s: State, step: Step, w: User)
    requires Inv(s) && Enabled(s, step) && w in Do(s, step).phases
    ensures UserOk(Do(s, step), w)
  {
    if w in s.phases { assert UserOk(s, w); }
    if step.u in s.phases { assert UserOk(s, step.u); }
    if w == step.u && step.action.Next? && s.phases[w].Renamed? {
      forall x | x in s.versions ensures x.lastModified < step.action.now {
        assert VersionOk(s, x);
      }
    }
  }

  /** Every step of every call keeps the invariant. */
  lemma StepKeeps(s: State, step: Step)
    requires Inv(s) && Enabled(s, step)
    ensures Inv(Do(s, step))
  {
    var s', u := Do(s, step), step.u;
    forall w | w in s'.phases ensures UserOk(s', w) {
      UsersKeep(s, step, w);
    }
    if step.action.Next? && s.phases[u].Stamped? {
      RecordKeeps(s, u, step.action.now);
    } else {
      forall x | x in s'.versions ensures VersionOk(s', x) {
        if step.action.Next? && s.phases[u].InKey? {
          RenameKeeps(s, u, step.action.now, x);
        } else {
          QuietStepKeeps(s, step, x);
        }
      }
    }
    if u in s.phases { assert UserOk(s, u); }
  }

  ghost predicate Leads(s: State, steps: seq<Step>, s': State)
    decreases |steps|
  {
    if steps == [] then s == s' else Enabled(s, steps[0]) && Leads(Do(s, steps[0]), steps[1..], s')
  }

  lemma {:induction false} RunKeeps(s: State, steps: seq<Step>, s': State)
    requires Inv(s) && Leads(s, steps, s')
    ensures Inv(s')
    decreases |steps|
  {
    if steps != [] {
      StepKeeps(s, steps[0]);
      RunKeeps(Do(s, steps[0]), steps[1..], s');
    }
  }

  /** In every interleaving, whenever the lock of the key is free, each version of
      the key has ETag and size from the very call whose bytes are in its file. */
  lemma VersionsArePaired(key: Key, steps: seq<Step>, s: State)
    requires Leads(Initial(key), steps, s) && s.lock.None?
    ensures forall x :: x in s.versions ==> exists u :: Source(s, x, u)
  {
    RunKeeps(Initial(key), steps, s);
    forall x | x in s.versions ensures exists u :: Source(s, x, u) {
      assert VersionOk(s, x);
    }
  }

  /** Because the time is taken under the lock, concurrent puts reach the metadata
      in the order of their times: each is newer than every version it finds, which
      is what the version stack asks of a put. */
  lemma PutsArriveInOrder(key: Key, steps: seq<Step>, s: State, u: User, now: int)
    requires Leads(Initial(key), steps, s) && Enabled(s, Step(u, Next(now))) && s.phases[u].Stamped?
    requires s.key != [] && 0 !in s.key
    ensures var p := s.phases[u];
            Allowed(map[s.key := s.versions],
                PutOp(ObjectInfo(s.key, p.req.versionId, p.now, false, false, p.req.etag, p.req.size)))
  {
    RunKeeps(Initial(key), steps, s);
    assert UserOk(s, u);
  }

  // ----- which put is current -----

  /** The current version comes from this call, and no call that succeeded was later. */
  ghost predicate IsNewest(s: State, u: User) {
    && u in s.phases && s.phases[u].Succeeded() && s.versions != []
    && var p := s.phases[u];
       && Top(s.versions) == ObjectInfo(s.key, p.req.versionId, p.now, false, false, p.req.etag, p.req.size)
       && forall w :: w in s.phases && s.phases[w].Succeeded() ==> s.phases[w].now <= p.now
  }

  ghost predicate NewestIsTop(s: State) {
    (exists u :: u in s.phases && s.phases[u].Succeeded()) ==> exists u :: IsNewest(s, u)
  }

  lemma NewestStepKeeps(s: State, step: Step)
    requires Inv(s) && Enabled(s, step) && NewestIsTop(s)
    ensures NewestIsTop(Do(s, step))
  {
    var s', u := Do(s, step), step.u;
    if step.action.Next? && s.phases[u].Stamped? {
      var p := s.phases[u];
      assert UserOk(s, u);
      PushIsStack(s.versions, s.key, InfoOf(p.req, p.now));
      forall w | w in s'.phases && s'.phases[w].Succeeded() ensures s'.phases[w].now <= p.now {
        if w != u {
          assert s.phases[w].Succeeded();
          var n :| IsNewest(s, n);
          assert Top(s.versions) in s.versions;
        }
      }
      assert IsNewest(s', u);
    } else if w :| w in s'.phases && s'.phases[w].Succeeded() {
      assert s.phases[w].Succeeded();
      var n :| IsNewest(s, n);
      assert s'.phases[n].Succeeded();
      assert IsNewest(s', n);
    }
  }

  lemma {:induction false} NewestRunKeeps(s: State, steps: seq<Step>, s': State)
    requires Inv(s) && NewestIsTop(s) && Leads(s, steps, s')
    ensures NewestIsTop(s')
    decreases |steps|
  {
    if steps != [] {
      StepKeeps(s, steps[0]);
      NewestStepKeeps(s, steps[0]);
      NewestRunKeeps(Do(s, steps[0]), steps[1..], s');
    }
  }

  /** In every interleaving, once a call has succeeded the current version is that of
      the successful call with the latest time. */
  lemma LatestPutIsCurrent(key: Key, steps: seq<Step>, s: State, u: User)
    requires Leads(Initial(key), steps, s) && u in s.phases && s.phases[u].Succeeded()
    ensures exists w :: IsNewest(s, w)
  {
    NewestRunKeeps(Initial(key), steps, s);
  }
}
