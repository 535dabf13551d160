/** Concurrent `UploadPart` calls for one upload, and concurrent `PutObject` calls
    for one unversioned key. Locks are those of LockMap (RefinesLockTable); between
    two lock operations each access to the disk or the metadata is one atomic step. */
module UploadRace {
  import opened Keys
  import opened Records

  type User = nat

  /** One call: its part number, the bytes that reach the disk, and the ETag and
      size of what was read from the client. */
  datatype Request = Request(number: int, stored: Key, etag: Key, size: nat, keyMD5: Option<Key>)

  datatype PartInfo = PartInfo(number: int, etag: Key, size: nat)

  function InfoOf(r: Request): PartInfo {
    PartInfo(r.number, r.etag, r.size)
  }

  datatype Meta = Meta(parts: seq<PartInfo>, keyMD5: Option<Key>)

  // ----- the list of parts -----

  predicate Recorded(parts: seq<PartInfo>, number: int) {
    exists i :: 0 <= i < |parts| && parts[i].number == number
  }

  predicate UniqueNumbers(parts: seq<PartInfo>) {
    forall i, j :: 0 <= i < j < |parts| ==> parts[i].number != parts[j].number
  }

  /** Replace the entry of that part number, or append. */
  function WithPart(parts: seq<PartInfo>, info: PartInfo): seq<PartInfo> {
    if parts == [] then [info]
    else if parts[0].number == info.number then [info] + parts[1..]
    else [parts[0]] + WithPart(parts[1..], info)
  }

  /** The loop over `meta.Parts` with its early exit. */
  method UpdateParts(parts: seq<PartInfo>, info: PartInfo) returns (updated: seq<PartInfo>)
    ensures updated == WithPart(parts, info)
  {
    var i, found := 0, false;
    updated := parts;
    while i < |parts| && !found
      invariant i <= |parts|
      invariant !found ==> updated == parts && WithPart(parts, info) == parts[..i] + WithPart(parts[i..], info)
      invariant found ==> updated == WithPart(parts, info)
    {
      if parts[i].number == info.number {
        updated := parts[i := info];
        found := true;
        assert updated == parts[..i] + ([info] + parts[i..][1..]);
      } else {
        assert parts[..i + 1] == parts[..i] + [parts[i]] && parts[i..][1..] == parts[i + 1..];
      }
      i := i + 1;
    }
    if !found {
      updated := parts + [info];
      assert parts[..i] == parts && parts[i..] == [];
    }
  }

  /** An entry is there for each number that had one and for the new one; every
      other entry is as it was. */
  lemma {:induction false} WithPartMeans(parts: seq<PartInfo>, info: PartInfo)
    requires UniqueNumbers(parts)
    ensures UniqueNumbers(WithPart(parts, info))
    ensures forall p :: p in WithPart(parts, info) <==> p == info || (p in parts && p.number != info.number)
  {
    if parts != [] {
      var rest := parts[1..];
      if parts[0].number == info.number {
        forall p | p in parts && p.number != info.number ensures p in rest {
          var i :| 0 < i < |parts| && parts[i] == p;
        }
        forall p | p in rest ensures p in parts && p.number != info.number {
          var i :| 0 <= i < |rest| && rest[i] == p;
          assert p == parts[i + 1];
        }
      } else {
        WithPartMeans(rest, info);
        var t := WithPart(rest, info);
        forall i | 0 <= i < |t| ensures t[i].number != parts[0].number {
          assert t[i] in t;
          if t[i] in rest {
            var j :| 0 <= j < |rest| && rest[j] == t[i];
            assert t[i] == parts[j + 1];
          }
        }
        assert forall p :: p in parts <==> p == parts[0] || p in rest;
      }
    }
  }

  lemma RecordedBy(parts: seq<PartInfo>, p: PartInfo)
    requires p in parts
    ensures Recorded(parts, p.number)
  {
    var i :| 0 <= i < |parts| && parts[i] == p;
  }

  lemma WithPartRecords(parts: seq<PartInfo>, info: PartInfo, number: int)
    requires UniqueNumbers(parts)
    ensures Recorded(WithPart(parts, info), number) <==> number == info.number || Recorded(parts, number)
  {
    WithPartMeans(parts, info);
    RecordedBy(WithPart(parts, info), info);
    if Recorded(parts, number) && number != info.number {
      var i :| 0 <= i < |parts| && parts[i].number == number;
      assert parts[i] in parts;
      RecordedBy(WithPart(parts, info), parts[i]);
    }
    if Recorded(WithPart(parts, info), number) && number != info.number {
      var i :| 0 <= i < |WithPart(parts, info)| && WithPart(parts, info)[i].number == number;
      assert WithPart(parts, info)[i] in WithPart(parts, info);
      RecordedBy(parts, WithPart(parts, info)[i]);
    }
  }

  // ----- the protocol of UploadPart -----

  /** Where a call stands. `meta` is the caller's own copy of the metadata. */
  datatype Phase =
    | Begin(req: Request)
    | Setup(req: Request)
    | Fetched(req: Request, meta: Meta)
    | Prepared(req: Request, meta: Meta)
    | Validating(req: Request, meta: Meta)
    | Ready(req: Request)
    | InPart(req: Request)
    | Renamed(req: Request)
    | Updating(req: Request)
    | Loaded(req: Request, meta: Meta)
    | Stored(req: Request)
    | Leaving(req: Request)
    | Failing(req: Request)
    | Done(req: Request)
    | Refused(req: Request)
  {
    predicate HoldsUpload() {
      Setup? || Fetched? || Prepared? || Updating? || Loaded? || Stored?
    }

    predicate HoldsPart() {
      InPart? || Renamed? || Updating? || Loaded? || Stored? || Leaving? || Failing?
    }

    /** The new file is in place, its metadata is not. */
    predicate Unpaired() {
      Renamed? || Updating? || Loaded?
    }

    predicate Succeeded() {
      Stored? || Leaving? || Done?
    }

    /** The customer key was checked and accepted. */
    predicate PastCheck() {
      Ready? || HoldsPart() || Done?
    }
  }

  datatype State = State(
    meta: Meta,
    files: map<int, Key>,
    uploadLock: Option<User>,
    partLocks: map<int, User>,
    phases: map<User, Phase>)
  {
    function Moved(u: User, p: Phase): State {
      this.(phases := phases[u := p])
    }
  }

  const INITIAL := State(Meta([], None), map[], None, map[], map[])

  datatype Action = Start(req: Request) | Next | Fail
  datatype Step = Step(u: User, action: Action)

  /** The first part that comes with a customer key fixes the key of the upload. */
  function Prepare(meta: Meta, r: Request): Meta {
    if meta.keyMD5.None? && meta.parts == [] && r.keyMD5.Some? then meta.(keyMD5 := r.keyMD5) else meta
  }

  predicate Accepts(meta: Meta, r: Request) {
    if meta.keyMD5.Some? then r.keyMD5 == meta.keyMD5
    else meta.parts == [] || r.keyMD5.None?
  }

  predicate Enabled(s: State, step: Step) {
    var u := step.u;
    match step.action
    case Start(_) => u !in s.phases
    case Fail => u in s.phases && s.phases[u].InPart?
    case Next =>
      u in s.phases &&
      match s.phases[u]
      case Begin(_) => s.uploadLock.None?
      case Ready(r) => r.number !in s.partLocks
      case Renamed(_) => s.uploadLock.None?
      case Done(_) => false
      case Refused(_) => false
      case _ => true
  }

  function Advance(s: State, u: User): State
    requires Enabled(s, Step(u, Next))
  {
    match s.phases[u]
    case Begin(r) => s.(uploadLock := Some(u)).Moved(u, Setup(r))
    case Setup(r) => s.Moved(u, Fetched(r, s.meta))
    case Fetched(r, m) =>
      s.(meta := if Prepare(m, r) != m then Prepare(m, r) else s.meta).Moved(u, Prepared(r, Prepare(m, r)))
    case Prepared(r, m) => s.(uploadLock := None).Moved(u, Validating(r, m))
    case Validating(r, m) => s.Moved(u, if Accepts(m, r) then Ready(r) else Refused(r))
    case Ready(r) => s.(partLocks := s.partLocks[r.number := u]).Moved(u, InPart(r))
    case InPart(r) => s.(files := s.files[r.number := r.stored]).Moved(u, Renamed(r))
    case Renamed(r) => s.(uploadLock := Some(u)).Moved(u, Updating(r))
    case Updating(r) => s.Moved(u, Loaded(r, s.meta))
    case Loaded(r, m) => s.(meta := m.(parts := WithPart(m.parts, InfoOf(r)))).Moved(u, Stored(r))
    case Stored(r) => s.(uploadLock := None).Moved(u, Leaving(r))
    case Leaving(r) => s.(partLocks := s.partLocks - {r.number}).Moved(u, Done(r))
    case Failing(r) => s.(partLocks := s.partLocks - {r.number}).Moved(u, Refused(r))
  }

  function Do(s: State, step: Step): State
    requires Enabled(s, step)
  {
    match step.action
    case Start(r) => s.Moved(step.u, Begin(r))
    case Fail => s.Moved(step.u, Failing(s.phases[step.u].req))
    case Next => Advance(s, step.u)
  }

  // ----- the invariant -----

  /** File and record of part `n` both come from the call of `u`, which succeeded. */
  predicate Source(s: State, n: int, u: User) {
    && u in s.phases && s.phases[u].Succeeded()
    && var r := s.phases[u].req;
       r.number == n && n in s.files && s.files[n] == r.stored && PartInfo(n, r.etag, r.size) in s.meta.parts
  }

  /** The part has neither file nor record, or both from one successful call. */
  ghost predicate Paired(s: State, n: int) {
    (n !in s.files && !Recorded(s.meta.parts, n)) || exists u :: Source(s, n, u)
  }

  ghost predicate PartOk(s: State, n: int) {
    if n in s.partLocks && s.partLocks[n] in s.phases && s.phases[s.partLocks[n]].Unpaired() then
      n in s.files && s.files[n] == s.phases[s.partLocks[n]].req.stored
    else
      Paired(s, n)
  }

  predicate UserOk(s: State, u: User)
    requires u in s.phases
  {
    var p := s.phases[u];
    && (p.HoldsUpload() <==> s.uploadLock == Some(u))
    && (p.HoldsPart() <==> p.req.number in s.partLocks && s.partLocks[p.req.number] == u)
    && (p.Fetched? || p.Prepared? || p.Loaded? ==> p.meta == s.meta)
    && (p.Succeeded() ==> Recorded(s.meta.parts, p.req.number))
  }

  ghost predicate Inv(s: State) {
    && UniqueNumbers(s.meta.parts)
    && (s.uploadLock.Some? ==> s.uploadLock.value in s.phases)
    && (forall n :: n in s.partLocks ==> s.partLocks[n] in s.phases && s.phases[s.partLocks[n]].req.number == n)
    && (forall u :: u in s.phases ==> UserOk(s, u))
    && (forall n :: PartOk(s, n))
  }

  /** A part is as it was when its file, its entry, its lock and its holder's
      standing are. */
  lemma PartKeeps(s: State, s': State, u: User, n: int)
    requires PartOk(s, n)
    requires n in s.partLocks <==> n in s'.partLocks
    requires n in s.partLocks ==> s'.partLocks[n] == s.partLocks[n] && s.partLocks[n] in s.phases
    requires n in s.files <==> n in s'.files
    requires n in s.files ==> s'.files[n] == s.files[n]
    requires forall p: PartInfo :: p.number == n ==> (p in s.meta.parts <==> p in s'.meta.parts)
    requires Recorded(s.meta.parts, n) <==> Recorded(s'.meta.parts, n)
    requires u in s'.phases && s'.phases == s.phases[u := s'.phases[u]]
    requires u in s.phases
             ==> s.phases[u].req == s'.phases[u].req && (s.phases[u].Succeeded() ==> s'.phases[u].Succeeded())
    requires n in s.partLocks && s.partLocks[n] == u
             ==> u in s.phases && (s.phases[u].Unpaired() <==> s'.phases[u].Unpaired())
    ensures PartOk(s', n)
  {
    if w :| Source(s, n, w) {
      assert Source(s', n, w);
    }
  }

  /** Steps that leave files, entries and part locks alone. */
  lemma QuietStepKeeps(s: State, step: Step)
    requires Inv(s) && Enabled(s, step)
    requires var s' := Do(s, step); s'.files == s.files && s'.partLocks == s.partLocks && s'.meta.parts == s.meta.parts
    requires step.u in s.phases ==> Do(s, step).phases[step.u].req == s.phases[step.u].req
    requires step.u in s.phases && s.phases[step.u].HoldsPart()
             ==> (s.phases[step.u].Unpaired() <==> Do(s, step).phases[step.u].Unpaired())
    requires step.u in s.phases ==> (s.phases[step.u].Succeeded() ==> Do(s, step).phases[step.u].Succeeded())
    ensures forall n :: PartOk(Do(s, step), n)
  {
    var s', u := Do(s, step), step.u;
    forall n ensures PartOk(s', n) {
      if n in s.partLocks {
        assert UserOk(s, s.partLocks[n]);
      }
      PartKeeps(s, s', u, n);
    }
  }

  /** Nobody else stands between reading and writing the metadata. */
  lemma OtherUserKeeps(s: State, step: Step, w: User)
    requires Inv(s) && Enabled(s, step) && w in s.phases && w != step.u
    ensures w in Do(s, step).phases && UserOk(Do(s, step), w)
  {
    var s', u := Do(s, step), step.u;
    assert UserOk(s, w) && s'.phases[w] == s.phases[w];
    if step.action.Next? {
      assert UserOk(s, u);
      if s.phases[u].Loaded? {
        WithPartRecords(s.meta.parts, InfoOf(s.phases[u].req), s.phases[w].req.number);
      }
    }
  }

  lemma OwnUserKeeps(s: State, step: Step)
    requires Inv(s) && Enabled(s, step)
    ensures step.u in Do(s, step).phases && UserOk(Do(s, step), step.u)
  {
    var u := step.u;
    if u in s.phases {
      assert UserOk(s, u);
      if s.phases[u].Loaded? {
        WithPartRecords(s.meta.parts, InfoOf(s.phases[u].req), s.phases[u].req.number);
      }
    } else if step.action.Start? {
      var n := step.action.req.number;
      assert n in s.partLocks ==> s.partLocks[n] in s.phases;
    }
  }

  lemma TakePartKeeps(s: State, u: User, n: int)
    requires Inv(s) && Enabled(s, Step(u, Next)) && (s.phases[u].Ready? || s.phases[u].Leaving? || s.phases[u].Failing?)
    ensures PartOk(Advance(s, u), n)
  {
    var s' := Advance(s, u);
    assert UserOk(s, u) && PartOk(s, n);
    if n == s.phases[u].req.number {
      if w :| Source(s, n, w) {
        assert Source(s', n, w);
      }
    } else {
      PartKeeps(s, s', u, n);
    }
  }

  lemma RenameKeeps(s: State, u: User, n: int)
    requires Inv(s) && Enabled(s, Step(u, Next)) && s.phases[u].InPart?
    ensures PartOk(Advance(s, u), n)
  {
    var s' := Advance(s, u);
    assert UserOk(s, u) && PartOk(s, n);
    if n != s.phases[u].req.number {
      PartKeeps(s, s', u, n);
    }
  }

  lemma StoreKeeps(s: State, u: User, n: int)
    requires Inv(s) && Enabled(s, Step(u, Next)) && s.phases[u].Loaded?
    ensures PartOk(Advance(s, u), n)
  {
    var s', r := Advance(s, u), s.phases[u].req;
    assert UserOk(s, u) && PartOk(s, n) && PartOk(s, r.number);
    WithPartMeans(s.meta.parts, InfoOf(r));
    WithPartRecords(s.meta.parts, InfoOf(r), n);
    if n == r.number {
      assert Source(s', n, u);
    } else {
      PartKeeps(s, s', u, n);
    }
  }

  lemma PartsKeep(s: State, step: Step)
    requires Inv(s) && Enabled(s, step)
    ensures forall n :: PartOk(Do(s, step), n)
  {
    var u := step.u;
    if !step.action.Next? {
      QuietStepKeeps(s, step);
    } else {
      var p := s.phases[u];
      if p.Ready? || p.Leaving? || p.Failing? {
        forall n ensures PartOk(Advance(s, u), n) { TakePartKeeps(s, u, n); }
      } else if p.InPart? {
        forall n ensures PartOk(Advance(s, u), n) { RenameKeeps(s, u, n); }
      } else if p.Loaded? {
        forall n ensures PartOk(Advance(s, u), n) { StoreKeeps(s, u, n); }
      } else {
        assert UserOk(s, u);
        QuietStepKeeps(s, step);
      }
    }
  }

  /** Every step of every call keeps the invariant. */
  lemma StepKeeps(s: State, step: Step)
    requires Inv(s) && Enabled(s, step)
    ensures Inv(Do(s, step))
  {
    var s', u := Do(s, step), step.u;
    PartsKeep(s, step);
    ListKeeps(s, step);
    LocksKeep(s, step);
    forall w | w in s'.phases ensures UserOk(s', w) {
      if w != u { OtherUserKeeps(s, step, w); } else { OwnUserKeeps(s, step); }
    }
  }

  lemma ListKeeps(s: State, step: Step)
    requires Inv(s) && Enabled(s, step)
    ensures UniqueNumbers(Do(s, step).meta.parts)
  {
    if step.u in s.phases {
      assert UserOk(s, step.u);
      if s.phases[step.u].Loaded? {
        WithPartMeans(s.meta.parts, InfoOf(s.phases[step.u].req));
      }
    }
  }

  lemma LocksKeep(s: State, step: Step)
    requires Inv(s) && Enabled(s, step)
    ensures var s' := Do(s, step);
            && (s'.uploadLock.Some? ==> s'.uploadLock.value in s'.phases)
            && (forall n :: n in s'.partLocks ==>
                 s'.partLocks[n] in s'.phases && s'.phases[s'.partLocks[n]].req.number == n)
  {
    var s' := Do(s, step);
    RequestStays(s, step);
    forall n | n in s'.partLocks ensures s'.partLocks[n] in s'.phases && s'.phases[s'.partLocks[n]].req.number == n {
      assert n in s.partLocks || (step.u in s.phases && n == s.phases[step.u].req.number && s'.partLocks[n] == step.u);
    }
  }

  lemma RequestStays(s: State, step: Step)
    requires Enabled(s, step)
    ensures var s' := Do(s, step);
            && step.u in s'.phases && s'.phases == s.phases[step.u := s'.phases[step.u]]
            && (step.u in s.phases ==> s'.phases[step.u].req == s.phases[step.u].req)
  {
  }

  // ----- whole runs -----

  ghost predicate Leads(s: State, steps: seq<Step>, s': State)
    decreases |steps|
  {
    if steps == [] then s == s' else Enabled(s, steps[0]) && Leads(Do(s, steps[0]), steps[1..], s')
  }

  lemma {:induction false} RunKeeps(s: State, steps: seq<Step>, s': State)
    requires Inv(s) && Leads(s, steps, s')
    ensures Inv(s')
    decreases |steps|
  {
    if steps != [] {
      StepKeeps(s, steps[0]);
      RunKeeps(Do(s, steps[0]), steps[1..], s');
    }
  }

  /** In every interleaving: part numbers are unique, every call that succeeded
      has its part recorded, and a part whose lock is free has file, ETag and size
      from one and the same successful call, or nothing at all. */
  lemma PartsArePaired(steps: seq<Step>, s: State)
    requires Leads(INITIAL, steps, s)
    ensures UniqueNumbers(s.meta.parts)
    ensures forall u :: u in s.phases && s.phases[u].Succeeded() ==> Recorded(s.meta.parts, s.phases[u].req.number)
    ensures forall n :: n !in s.partLocks ==> Paired(s, n)
  {
    RunKeeps(INITIAL, steps, s);
    forall u | u in s.phases && s.phases[u].Succeeded() ensures Recorded(s.meta.parts, s.phases[u].req.number) {
      assert UserOk(s, u);
    }
    forall n | n !in s.partLocks ensures Paired(s, n) {
      assert PartOk(s, n);
    }
  }

  /** One step loses no recorded part, and changes an entry only when a call for
      that very number stores its own. */
  lemma StepLosesNoPart(s: State, step: Step, n: int)
    requires Inv(s) && Enabled(s, step)
    ensures Recorded(s.meta.parts, n) ==> Recorded(Do(s, step).meta.parts, n)
    ensures (forall p: PartInfo :: p.number == n ==> (p in s.meta.parts <==> p in Do(s, step).meta.parts)) ||
            var p := Do(s, step).phases[step.u];
            && p.Stored? && p.req.number == n
            && PartInfo(n, p.req.etag, p.req.size) in Do(s, step).meta.parts
  {
    if step.action.Next? {
      assert UserOk(s, step.u);
      if s.phases[step.u].Loaded? {
        WithPartMeans(s.meta.parts, InfoOf(s.phases[step.u].req));
        WithPartRecords(s.meta.parts, InfoOf(s.phases[step.u].req), n);
      }
    }
  }

  /** A part once recorded stays recorded. */
  lemma {:induction false} NoPartIsLost(s: State, steps: seq<Step>, s': State, n: int)
    requires Inv(s) && Leads(s, steps, s') && Recorded(s.meta.parts, n)
    ensures Recorded(s'.meta.parts, n)
    decreases |steps|
  {
    if steps != [] {
      StepKeeps(s, steps[0]);
      StepLosesNoPart(s, steps[0], n);
      NoPartIsLost(Do(s, steps[0]), steps[1..], s', n);
    }
  }

  // ----- the customer key -----

  /** What a call knows of the upload's key agrees with the key on record. */
  predicate KeyOk(s: State, p: Phase) {
    && (p.Prepared? || p.Validating? ==>
         && (p.meta.keyMD5.Some? ==> s.meta.keyMD5 == p.meta.keyMD5)
         && (p.meta.keyMD5.None? && p.meta.parts == [] ==> p.req.keyMD5.None?))
    && (p.PastCheck() && p.req.keyMD5.Some? ==> s.meta.keyMD5 == p.req.keyMD5)
  }

  ghost predicate KeysOk(s: State) {
    forall u :: u in s.phases ==> KeyOk(s, s.phases[u])
  }

  lemma OwnKeyKeeps(s: State, step: Step)
    requires Inv(s) && KeysOk(s) && Enabled(s, step)
    ensures step.u in Do(s, step).phases && KeyOk(Do(s, step), Do(s, step).phases[step.u])
    ensures Do(s, step).phases == s.phases[step.u := Do(s, step).phases[step.u]]
    ensures s.meta.keyMD5.Some? ==> Do(s, step).meta.keyMD5 == s.meta.keyMD5
  {
    if step.u in s.phases {
      assert UserOk(s, step.u) && KeyOk(s, s.phases[step.u]);
    }
  }

  lemma KeyStepKeeps(s: State, step: Step)
    requires Inv(s) && KeysOk(s) && Enabled(s, step)
    ensures KeysOk(Do(s, step))
    ensures s.meta.keyMD5.Some? ==> Do(s, step).meta.keyMD5 == s.meta.keyMD5
  {
    var s', u := Do(s, step), step.u;
    OwnKeyKeeps(s, step);
    forall w | w in s'.phases && w != u ensures KeyOk(s', s'.phases[w]) {
      assert KeyOk(s, s.phases[w]);
    }
  }

  lemma {:induction false} KeyRunKeeps(s: State, steps: seq<Step>, s': State)
    requires Inv(s) && KeysOk(s) && Leads(s, steps, s')
    ensures Inv(s') && KeysOk(s')
    ensures s.meta.keyMD5.Some? ==> s'.meta.keyMD5 == s.meta.keyMD5
    decreases |steps|
  {
    if steps != [] {
      StepKeeps(s, steps[0]);
      KeyStepKeeps(s, steps[0]);
      KeyRunKeeps(Do(s, steps[0]), steps[1..], s');
    }
  }

  /** In every interleaving: the key of an upload, once set, stays; a call that comes
      with a key gets past the check only with the upload's key; and a call is refused
      exactly if its key is not the one, or the absence of one, that it found on record
      after offering its own for an upload without parts. */
  lemma OneKeyPerUpload(steps: seq<Step>, s: State, more: seq<Step>, t: State)
    requires Leads(INITIAL, steps, s) && Leads(s, more, t)
    ensures s.meta.keyMD5.Some? ==> t.meta.keyMD5 == s.meta.keyMD5
    ensures forall u :: u in s.phases && s.phases[u].Succeeded() && s.phases[u].req.keyMD5.Some? ==>
                          s.meta.keyMD5 == s.phases[u].req.keyMD5
    ensures forall u :: u in s.phases && s.phases[u].Validating? ==>
                          && Enabled(s, Step(u, Next))
                          && Do(s, Step(u, Next)).phases[u] ==
                               if s.phases[u].req.keyMD5 == s.phases[u].meta.keyMD5 then Ready(s.phases[u].req)
                               else Refused(s.phases[u].req)
  {
    KeyRunKeeps(INITIAL, steps, s);
    KeyRunKeeps(s, more, t);
    forall u | u in s.phases ensures KeyOk(s, s.phases[u]) {
    }
  }

  /** This call has no part in the race for the key. */
  predicate IsLate(s: State, u: User) {
    u in s.phases ==>
      var p := s.phases[u];
      && (p.Fetched? || p.Prepared? || p.Validating? ==> p.meta.keyMD5 == s.meta.keyMD5)
      && (p.PastCheck() ==> p.req.keyMD5 == s.meta.keyMD5)
  }

  lemma {:induction false} LateCallsAreChecked(s: State, steps: seq<Step>, s': State, u: User)
    requires Inv(s) && KeysOk(s) && Leads(s, steps, s') && s.meta.keyMD5.Some? && IsLate(s, u)
    ensures IsLate(s', u)
    decreases |steps|
  {
    if steps != [] {
      StepKeeps(s, steps[0]);
      KeyStepKeeps(s, steps[0]);
      LateStepKeeps(s, steps[0], u);
      LateCallsAreChecked(Do(s, steps[0]), steps[1..], s', u);
    }
  }

  lemma LateStepKeeps(s: State, step: Step, u: User)
    requires Inv(s) && KeysOk(s) && Enabled(s, step) && s.meta.keyMD5.Some? && IsLate(s, u)
    ensures IsLate(Do(s, step), u)
  {
    OwnKeyKeeps(s, step);
    if u == step.u {
      OwnStepIsLate(s, step);
    }
  }

  lemma OwnStepIsLate(s: State, step: Step)
    requires Inv(s) && Enabled(s, step) && s.meta.keyMD5.Some? && IsLate(s, step.u)
    ensures IsLate(Do(s, step), step.u)
  {
    if step.u in s.phases {
      assert UserOk(s, step.u);
    }
  }

  /** Once the key is on record, a call that starts succeeds only with that key. */
  lemma LaterCallsUseTheKey(steps: seq<Step>, s: State, more: seq<Step>, t: State, u: User)
    requires Leads(INITIAL, steps, s) && Leads(s, more, t)
    requires s.meta.keyMD5.Some? && u !in s.phases && u in t.phases && t.phases[u].Succeeded()
    ensures t.phases[u].req.keyMD5 == s.meta.keyMD5 == t.meta.keyMD5
  {
    KeyRunKeeps(INITIAL, steps, s);
    KeyRunKeeps(s, more, t);
    LateCallsAreChecked(s, more, t, u);
  }

  lemma OneMore(s: State, step: Step, steps: seq<Step>, t: State)
    requires Enabled(s, step) && Leads(Do(s, step), steps, t)
    ensures Leads(s, [step] + steps, t)
  {
    assert ([step] + steps)[1..] == steps;
  }

  lemma {:induction false} Joined(s: State, a: seq<Step>, t: State, b: seq<Step>, v: State)
    requires Leads(s, a, t) && Leads(t, b, v)
    ensures Leads(s, a + b, v)
    decreases |a|
  {
    if a == [] {
      assert a + b == b;
    } else {
      Joined(Do(s, a[0]), a[1..], t, b, v);
      assert (a + b)[1..] == a[1..] + b;
    }
  }

  /** The call goes on alone until it has done `n` steps. */
  function Alone(s: State, u: User, n: nat): Option<State>
    decreases n
  {
    if n == 0 then Some(s)
    else if !Enabled(s, Step(u, Next)) then None
    else Alone(Advance(s, u), u, n - 1)
  }

  lemma {:induction false} AloneLeads(s: State, u: User, n: nat) returns (steps: seq<Step>)
    requires Alone(s, u, n).Some?
    ensures Leads(s, steps, Alone(s, u, n).value)
    decreases n
  {
    if n == 0 {
      steps := [];
    } else {
      var rest := AloneLeads(Advance(s, u), u, n - 1);
      OneMore(s, Step(u, Next), rest, Alone(s, u, n).value);
      steps := [Step(u, Next)] + rest;
    }
  }

  lemma CallIsChecked(s: State, u: User, r: Request) returns (steps: seq<Step>, t: State)
    requires s.uploadLock.None? && u !in s.phases && Accepts(Prepare(s.meta, r), r)
    ensures Leads(s, steps, t)
    ensures t == s.(meta := Prepare(s.meta, r), phases := s.phases[u := Ready(r)])
  {
    var started := Do(s, Step(u, Start(r)));
    t := s.(meta := Prepare(s.meta, r), phases := s.phases[u := Ready(r)]);
    assert started.phases[u] == Begin(r);
    var a := Advance(started, u);
    var b := Advance(a, u);
    var c := Advance(b, u);
    var d := Advance(c, u);
    var e := Advance(d, u);
    assert e == t;
    assert Alone(d, u, 1) == Some(t);
    assert Alone(b, u, 3) == Some(t);
    assert Alone(started, u, 5) == Some(t);
    var rest := AloneLeads(started, u, 5);
    OneMore(s, Step(u, Start(r)), rest, t);
    steps := [Step(u, Start(r))] + rest;
  }

  lemma CallIsStored(s: State, u: User, r: Request) returns (steps: seq<Step>, t: State)
    requires s.uploadLock.None? && u in s.phases && s.phases[u] == Ready(r) && r.number !in s.partLocks
    ensures Leads(s, steps, t)
    ensures t.meta == s.meta.(parts := WithPart(s.meta.parts, PartInfo(r.number, r.etag, r.size)))
    ensures t.uploadLock.None? && t.partLocks == s.partLocks && t.phases == s.phases[u := Done(r)]
    ensures t.files == s.files[r.number := r.stored]
  {
    var a := Advance(s, u);
    var b := Advance(a, u);
    var c := Advance(b, u);
    var d := Advance(c, u);
    var e := Advance(d, u);
    var f := Advance(e, u);
    t := Advance(f, u);
    assert Alone(f, u, 1) == Some(t);
    assert Alone(d, u, 3) == Some(t);
    assert Alone(b, u, 5) == Some(t);
    assert Alone(s, u, 7) == Some(t);
    steps := AloneLeads(s, u, 7);
    assert t.partLocks == s.partLocks;
  }

  lemma BothAreChecked(r: Request, keyed: Request) returns (steps: seq<Step>, s: State)
    requires r.keyMD5.None? && keyed.keyMD5.Some?
    ensures Leads(INITIAL, steps, s)
    ensures s == State(Meta([], keyed.keyMD5), map[], None, map[], map[0 := Ready(r), 1 := Ready(keyed)])
  {
    var a, checked := CallIsChecked(INITIAL, 0, r);
    var b, both := CallIsChecked(checked, 1, keyed);
    Joined(INITIAL, a, checked, b, both);
    steps, s := a + b, both;
  }

  lemma BothAreStored(s: State, r: Request, keyed: Request) returns (steps: seq<Step>, t: State)
    requires r.number != keyed.number
    requires s == State(Meta([], keyed.keyMD5), map[], None, map[], map[0 := Ready(r), 1 := Ready(keyed)])
    ensures Leads(s, steps, t) && t.phases == map[0 := Done(r), 1 := Done(keyed)]
    ensures t.meta.keyMD5 == keyed.keyMD5 && t.files == map[r.number := r.stored, keyed.number := keyed.stored]
    ensures t.meta.parts == [PartInfo(r.number, r.etag, r.size), PartInfo(keyed.number, keyed.etag, keyed.size)]
  {
    var a, first := CallIsStored(s, 0, r);
    assert first.phases == map[0 := Done(r), 1 := Ready(keyed)];
    var b, second := CallIsStored(first, 1, keyed);
    Joined(s, a, first, b, second);
    steps, t := a + b, second;
  }

  /** Two calls for different parts, one without a key and one with: if the first is past
      its check before the second sets the key, both parts end up in an upload with that
      key, though the first one's file is not encrypted under it. */
  lemma PartsMayDifferInKey(r: Request, keyed: Request) returns (steps: seq<Step>, s: State)
    requires r.keyMD5.None? && keyed.keyMD5.Some? && r.number != keyed.number
    ensures Leads(INITIAL, steps, s) && s.phases == map[0 := Done(r), 1 := Done(keyed)]
    ensures s.meta.keyMD5 == keyed.keyMD5 && s.files == map[r.number := r.stored, keyed.number := keyed.stored]
    ensures s.meta.parts == [PartInfo(r.number, r.etag, r.size), PartInfo(keyed.number, keyed.etag, keyed.size)]
  {
    var a, both := BothAreChecked(r, keyed);
    var b, done := BothAreStored(both, r, keyed);
    Joined(INITIAL, a, both, b, done);
    steps, s := a + b, done;
  }
}
