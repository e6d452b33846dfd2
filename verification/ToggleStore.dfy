/** The session toggle store of the active-memory plugin (extensions/active-memory/index.ts):
    a promise-chain lock around a read-modify-write of one file, under every
    interleaving of callers.  The temporary-file write and rename are one atomic step. */
module ToggleStore {
  import opened JsText
  import opened JsTextLaws

  /** A session's record in the file. */
  datatype Toggle = Toggle(disabled: bool, updatedAt: int)
  type File = map<string, Toggle>

  /** Where a call of `setSessionActiveMemoryDisabled` stands.  `HasRead` holds what the
      read returned; `Settled(ok)` is after the write, before the lock is released. */
  datatype Phase = Waiting | Running | HasRead(sessions: File, readFailed: bool)
                 | Settled(ok: bool, readFailed: bool) | Released(ok: bool, readFailed: bool)

  /** A call: its arguments, the promise it awaits, the promise it resolves, its phase. */
  datatype Caller = Caller(session: string, disable: bool, now: int, previous: nat, own: nat, phase: Phase)

  /** `lock` is the last promise of the chain and `resolved` the promises resolved so far. */
  datatype System = System(lock: nat, resolved: set<nat>, callers: seq<Caller>, file: File)

  datatype Event = Call(session: string, disable: bool, now: int)
                 | Begin(i: nat)
                 | Read(i: nat, fails: bool)
                 | Write(i: nat, fails: bool)
                 | Release(i: nat)

  function Initial(file: File): System {
    System(0, {0}, [], file)
  }

  // ---------------------------------------------------------------- the task

  /** Assigning to `__proto__` makes no entry, and an entry with a blank key is never read. */
  predicate Storable(session: string) {
    !IsBlank(session) && session != "__proto__"
  }

  /** `readToggleStore`: only disabled sessions with a usable key are kept; a read that
      fails in any way reads as an empty store. */
  function ReadToggleStore(file: File, fails: bool): File {
    if fails then map[]
    else map key | key in file && Storable(key) && file[key].disabled :: file[key]
  }

  function Toggled(sessions: File, c: Caller): File {
    if c.disable then (if c.session == "__proto__" then sessions else sessions[c.session := Toggle(true, c.now)])
    else sessions - {c.session}
  }

  // ---------------------------------------------------------------- steps

  predicate At(s: System, i: nat) {
    i < |s.callers|
  }

  function SetPhase(s: System, i: nat, phase: Phase): System
    requires At(s, i)
  {
    s.(callers := s.callers[i := s.callers[i].(phase := phase)])
  }

  /** An event that is not enabled leaves the system unchanged. */
  function Step(s: System, e: Event): System {
    match e
    case Call(session, disable, now) =>
      var own := |s.callers| + 1;
      s.(lock := own, callers := s.callers + [Caller(session, disable, now, s.lock, own, Waiting)])
    case Begin(i) =>
      if At(s, i) && s.callers[i].phase.Waiting? && s.callers[i].previous in s.resolved
      then SetPhase(s, i, Running) else s
    case Read(i, fails) =>
      if At(s, i) && s.callers[i].phase.Running?
      then SetPhase(s, i, HasRead(ReadToggleStore(s.file, fails), fails)) else s
    case Write(i, fails) =>
      if At(s, i) && s.callers[i].phase.HasRead? then
        var phase := s.callers[i].phase;
        var s' := SetPhase(s, i, Settled(!fails, phase.readFailed));
        if fails then s' else s'.(file := Toggled(phase.sessions, s.callers[i]))
      else s
    case Release(i) =>
      if At(s, i) && s.callers[i].phase.Settled? then
        var phase := s.callers[i].phase;
        SetPhase(s, i, Released(phase.ok, phase.readFailed)).(resolved := s.resolved + {s.callers[i].own})
      else s
  }

  function Run(s: System, es: seq<Event>): System
    decreases |es|
  {
    if es == [] then s else Run(Step(s, es[0]), es[1..])
  }

  // ---------------------------------------------------------------- invariant

  /** The effect of the calls that succeeded, applied one after another in call order. */
  function Applied(file: File, callers: seq<Caller>): File {
    if callers == [] then file
    else
      var before, c := Applied(file, callers[..|callers| - 1]), callers[|callers| - 1];
      if (c.phase.Settled? || c.phase.Released?) && c.phase.ok
      then Toggled(ReadToggleStore(before, c.phase.readFailed), c)
      else before
  }

  /** Calls finish in call order: until one has released the lock, all later ones wait. */
  ghost predicate OneAtATime(callers: seq<Caller>) {
    forall i, j :: 0 <= i < j < |callers| && !callers[i].phase.Released? ==> callers[j].phase.Waiting?
  }

  ghost predicate ChainOk(s: System) {
    && s.lock == |s.callers|
    && (forall i :: 0 <= i < |s.callers| ==> s.callers[i].previous == i && s.callers[i].own == i + 1)
    && (forall p :: p in s.resolved <==> p == 0 || (0 < p <= |s.callers| && s.callers[p - 1].phase.Released?))
  }

  /** A task that has read still holds what the file says. */
  ghost predicate ReadsFresh(s: System) {
    forall i :: 0 <= i < |s.callers| && s.callers[i].phase.HasRead? ==>
      s.callers[i].phase.sessions == ReadToggleStore(s.file, s.callers[i].phase.readFailed)
  }

  ghost predicate Inv(file0: File, s: System) {
    && ChainOk(s)
    && OneAtATime(s.callers)
    && ReadsFresh(s)
    && s.file == Applied(file0, s.callers)
  }

  predicate Succeeded(c: Caller) {
    (c.phase.Settled? || c.phase.Released?) && c.phase.ok
  }

  lemma {:induction false} AppliedSame(file: File, a: seq<Caller>, b: seq<Caller>)
    requires |a| == |b|
    requires forall i :: 0 <= i < |a| ==> Succeeded(a[i]) == Succeeded(b[i])
    requires forall i :: 0 <= i < |a| && Succeeded(a[i]) && Succeeded(b[i]) ==>
               && a[i].phase.readFailed == b[i].phase.readFailed
               && a[i].session == b[i].session && a[i].disable == b[i].disable && a[i].now == b[i].now
    ensures Applied(file, a) == Applied(file, b)
  {
    if a != [] {
      AppliedSame(file, a[..|a| - 1], b[..|b| - 1]);
    }
  }

  lemma {:induction false} AppliedPrefix(file: File, callers: seq<Caller>, n: nat)
    requires n <= |callers| && forall i :: n <= i < |callers| ==> !Succeeded(callers[i])
    ensures Applied(file, callers) == Applied(file, callers[..n])
    decreases |callers|
  {
    if n < |callers| {
      var front := callers[..|callers| - 1];
      AppliedPrefix(file, front, n);
      assert front[..n] == callers[..n];
    } else {
      assert callers[..n] == callers;
    }
  }

  lemma ActiveAlone(s: System, i: nat)
    requires ChainOk(s) && OneAtATime(s.callers) && At(s, i)
    requires !s.callers[i].phase.Waiting? || s.callers[i].previous in s.resolved
    ensures forall j :: 0 <= j < i ==> s.callers[j].phase.Released?
    ensures !s.callers[i].phase.Released? ==> forall j :: i < j < |s.callers| ==> s.callers[j].phase.Waiting?
  {
    if i > 0 && s.callers[i].phase.Waiting? {
      assert s.callers[i - 1].phase.Released?;
      forall j | 0 <= j < i - 1 ensures s.callers[j].phase.Released? {
      }
    }
  }

  lemma AppliedWaiting(file: File, callers: seq<Caller>, c: Caller)
    requires c.phase.Waiting?
    ensures Applied(file, callers + [c]) == Applied(file, callers)
  {
    assert (callers + [c])[..|callers|] == callers;
  }

  lemma CallChain(s: System, e: Event)
    requires ChainOk(s) && e.Call?
    ensures ChainOk(Step(s, e))
  {
    var callers := Step(s, e).callers;
    forall i | 0 <= i < |s.callers| ensures callers[i] == s.callers[i] {
    }
  }

  lemma CallInv(file0: File, s: System, e: Event)
    requires Inv(file0, s) && e.Call?
    ensures Inv(file0, Step(s, e))
  {
    var callers := Step(s, e).callers;
    CallChain(s, e);
    AppliedWaiting(file0, s.callers, callers[|s.callers|]);
    forall i | 0 <= i < |s.callers| ensures callers[i] == s.callers[i] {
    }
  }

  /** A step that changes one caller's phase but neither the file nor the set of successes. */
  lemma QuietInv(file0: File, s: System, i: nat, phase: Phase)
    requires Inv(file0, s) && At(s, i)
    requires !phase.Waiting? && !phase.Released? && !s.callers[i].phase.Released?
    requires s.callers[i].phase.Waiting? ==> s.callers[i].previous in s.resolved
    requires Succeeded(s.callers[i].(phase := phase)) == Succeeded(s.callers[i]) == false
    requires phase.HasRead? ==> phase.sessions == ReadToggleStore(s.file, phase.readFailed)
    ensures Inv(file0, SetPhase(s, i, phase))
  {
    ActiveAlone(s, i);
    AppliedSame(file0, s.callers, SetPhase(s, i, phase).callers);
  }

  /** The first `i` calls are done and the later ones wait: the file after call `i` has written. */
  lemma AppliedAtWrite(file0: File, before: seq<Caller>, after: seq<Caller>, i: nat)
    requires i < |before| == |after| && before[..i] == after[..i] && Succeeded(after[i]) && !Succeeded(before[i])
    requires forall j :: i < j < |after| ==> !Succeeded(before[j]) && !Succeeded(after[j])
    ensures Applied(file0, after) ==
            Toggled(ReadToggleStore(Applied(file0, before), after[i].phase.readFailed), after[i])
  {
    AppliedPrefix(file0, before, i);
    AppliedPrefix(file0, after, i + 1);
    assert after[..i + 1][..i] == before[..i] && after[..i + 1][i] == after[i];
  }

  lemma WriteInv(file0: File, s: System, i: nat)
    requires Inv(file0, s) && At(s, i) && s.callers[i].phase.HasRead?
    ensures Inv(file0, Step(s, Write(i, false)))
  {
    var s' := Step(s, Write(i, false));
    ActiveAlone(s, i);
    assert s'.callers[..i] == s.callers[..i];
    AppliedAtWrite(file0, s.callers, s'.callers, i);
    ToggledSame(s.callers[i].phase.sessions, s.callers[i], s'.callers[i]);
  }

  lemma ToggledSame(sessions: File, a: Caller, b: Caller)
    requires a.session == b.session && a.disable == b.disable && a.now == b.now
    ensures Toggled(sessions, a) == Toggled(sessions, b)
  {
  }

  lemma ReleaseChain(s: System, i: nat)
    requires ChainOk(s) && OneAtATime(s.callers) && At(s, i) && s.callers[i].phase.Settled?
    ensures ChainOk(Step(s, Release(i))) && OneAtATime(Step(s, Release(i)).callers)
  {
    ActiveAlone(s, i);
    var callers := Step(s, Release(i)).callers;
    forall j | 0 <= j < |callers| && j != i ensures callers[j] == s.callers[j] {
    }
  }

  lemma ReleaseInv(file0: File, s: System, i: nat)
    requires Inv(file0, s) && At(s, i) && s.callers[i].phase.Settled?
    ensures Inv(file0, Step(s, Release(i)))
  {
    ReleaseChain(s, i);
    AppliedSame(file0, s.callers, Step(s, Release(i)).callers);
  }

  /** Every event keeps the invariant. */
  lemma StepInv(file0: File, s: System, e: Event)
    requires Inv(file0, s)
    ensures Inv(file0, Step(s, e))
  {
    match e {
      case Call(_, _, _) => CallInv(file0, s, e);
      case Begin(i) =>
        if At(s, i) && s.callers[i].phase.Waiting? && s.callers[i].previous in s.resolved {
          QuietInv(file0, s, i, Running);
        }
      case Read(i, fails) =>
        if At(s, i) && s.callers[i].phase.Running? {
          QuietInv(file0, s, i, HasRead(ReadToggleStore(s.file, fails), fails));
        }
      case Write(i, fails) =>
        if At(s, i) && s.callers[i].phase.HasRead? {
          if fails {
            QuietInv(file0, s, i, Settled(false, s.callers[i].phase.readFailed));
          } else {
            WriteInv(file0, s, i);
          }
        }
      case Release(i) =>
        if At(s, i) && s.callers[i].phase.Settled? {
          ReleaseInv(file0, s, i);
        }
    }
  }

  lemma {:induction false} RunKeeps(file0: File, s: System, es: seq<Event>)
    requires Inv(file0, s)
    ensures Inv(file0, Run(s, es))
    decreases |es|
  {
    if es != [] {
      StepInv(file0, s, es[0]);
      RunKeeps(file0, Step(s, es[0]), es[1..]);
    }
  }

  // ---------------------------------------------------------------- whole runs

  /** A task is active from its begin to its release. */
  predicate Active(c: Caller) {
    c.phase.Running? || c.phase.HasRead? || c.phase.Settled?
  }

  /** In every interleaving at most one task is active, later callers wait for earlier ones. */
  lemma MutualExclusion(file0: File, es: seq<Event>)
    ensures var callers := Run(Initial(file0), es).callers;
            && (forall i, j :: 0 <= i < j < |callers| ==> !(Active(callers[i]) && Active(callers[j])))
            && (forall i, j :: 0 <= i < j < |callers| && !callers[j].phase.Waiting? ==> callers[i].phase.Released?)
  {
    RunKeeps(file0, Initial(file0), es);
  }

  /** No update is lost: the file is the successful calls applied in call order. */
  lemma NoLostUpdate(file0: File, es: seq<Event>)
    ensures var s := Run(Initial(file0), es); s.file == Applied(file0, s.callers)
  {
    RunKeeps(file0, Initial(file0), es);
  }

  /** The next event of the first unfinished caller. */
  function NextEvent(s: System, i: nat): Event
    requires At(s, i)
  {
    match s.callers[i].phase
    case Waiting => Begin(i)
    case Running => Read(i, false)
    case HasRead(_, _) => Write(i, false)
    case _ => Release(i)
  }

  function Remaining(p: Phase): nat {
    match p
    case Waiting => 4
    case Running => 3
    case HasRead(_, _) => 2
    case Settled(_, _) => 1
    case Released(_, _) => 0
  }

  /** The lock never blocks for good: the first caller that has not released can always
      move on, also when an earlier task threw. */
  lemma NeverStuck(file0: File, s: System, i: nat)
    requires Inv(file0, s) && At(s, i) && !s.callers[i].phase.Released?
    requires forall j :: 0 <= j < i ==> s.callers[j].phase.Released?
    ensures At(Step(s, NextEvent(s, i)), i)
    ensures Remaining(Step(s, NextEvent(s, i)).callers[i].phase) < Remaining(s.callers[i].phase)
  {
  }

  // ---------------------------------------------------------------- the disabled set

  function Disabled(file: File): set<string> {
    set key | key in file && Storable(key) && file[key].disabled
  }

  /** A session is disabled by a record under a key with a visible character; the key
      `__proto__` is never one. */
  lemma DisabledExactly(file: File, session: string)
    ensures session in Disabled(file) <==>
            session in file && file[session].disabled && session != "__proto__" && exists c :: c in session && !IsWhitespace(c)
  {
    BlankExactly(session);
  }

  /** The disabled sessions after the successful calls, one after another. */
  function DisabledAfter(start: set<string>, callers: seq<Caller>): set<string> {
    if callers == [] then start
    else
      var before, c := DisabledAfter(start, callers[..|callers| - 1]), callers[|callers| - 1];
      if !Succeeded(c) then before
      else if !c.disable then before - {c.session}
      else if Storable(c.session) then before + {c.session}
      else before
  }

  /** The disabled sessions that were forgotten: a successful call whose read failed forgets
      all but its own, and a later successful call for a session makes up for it. */
  function Lost(start: set<string>, callers: seq<Caller>): set<string> {
    if callers == [] then {}
    else
      var front, c := callers[..|callers| - 1], callers[|callers| - 1];
      if !Succeeded(c) then Lost(start, front)
      else (if c.phase.readFailed then DisabledAfter(start, front) else Lost(start, front)) - {c.session}
  }

  lemma {:induction false} DisabledLessLost(file0: File, callers: seq<Caller>)
    ensures Disabled(Applied(file0, callers)) ==
            DisabledAfter(Disabled(file0), callers) - Lost(Disabled(file0), callers)
    ensures Lost(Disabled(file0), callers) <= DisabledAfter(Disabled(file0), callers)
    ensures forall key :: key in DisabledAfter(Disabled(file0), callers) ==> Storable(key)
  {
    if callers != [] {
      var front, c := callers[..|callers| - 1], callers[|callers| - 1];
      DisabledLessLost(file0, front);
      if Succeeded(c) {
        ToggleChangesOne(Applied(file0, front), c, c.phase.readFailed);
      }
    }
  }

  lemma ToggleChangesOne(file: File, c: Caller, fails: bool)
    ensures var before := if fails then {} else Disabled(file);
            Disabled(Toggled(ReadToggleStore(file, fails), c)) ==
            if !c.disable then before - {c.session} else if Storable(c.session) then before + {c.session} else before
  {
  }

  /** After any run the disabled sessions are the successful toggles in call order, less what
      failed reads have made later writes forget; so they are just those toggles exactly when
      nothing stays lost. */
  lemma TogglesInCallOrder(file0: File, es: seq<Event>)
    ensures var s, start := Run(Initial(file0), es), Disabled(file0);
            && Disabled(s.file) == DisabledAfter(start, s.callers) - Lost(start, s.callers)
            && (Disabled(s.file) == DisabledAfter(start, s.callers) <==> Lost(start, s.callers) == {})
  {
    var callers, start := Run(Initial(file0), es).callers, Disabled(file0);
    NoLostUpdate(file0, es);
    DisabledLessLost(file0, callers);
    assert forall key :: key in Lost(start, callers) ==> key in DisabledAfter(start, callers);
  }

  // ---------------------------------------------------------------- what the run records of its events

  datatype Args = Args(session: string, disable: bool, now: int)

  ghost function ArgsOf(callers: seq<Caller>): seq<Args> {
    seq(|callers|, i requires 0 <= i < |callers| => Args(callers[i].session, callers[i].disable, callers[i].now))
  }

  ghost function CallsOf(es: seq<Event>): seq<Args> {
    if es == [] then []
    else (if es[0].Call? then [Args(es[0].session, es[0].disable, es[0].now)] else []) + CallsOf(es[1..])
  }

  /** The callers are the calls of the run, in order, with their arguments. */
  lemma {:induction false} CallsRecorded(s: System, es: seq<Event>)
    ensures ArgsOf(Run(s, es).callers) == ArgsOf(s.callers) + CallsOf(es)
    decreases |es|
  {
    if es != [] {
      CallsRecorded(Step(s, es[0]), es[1..]);
      var call := if es[0].Call? then [Args(es[0].session, es[0].disable, es[0].now)] else [];
      assert ArgsOf(Step(s, es[0]).callers) == ArgsOf(s.callers) + call;
      assert ArgsOf(s.callers) + (call + CallsOf(es[1..])) == (ArgsOf(s.callers) + call) + CallsOf(es[1..]);
    }
  }

  /** The file changes only when a task that has read writes without failing, and the call
      succeeds exactly then. */
  lemma OnlyWritesChange(s: System, e: Event, i: nat)
    requires At(s, i)
    ensures Step(s, e).file != s.file ==> exists j: nat :: At(s, j) && s.callers[j].phase.HasRead? && e == Write(j, false)
    ensures At(Step(s, e), i)
    ensures Succeeded(Step(s, e).callers[i]) <==> Succeeded(s.callers[i]) || (s.callers[i].phase.HasRead? && e == Write(i, false))
  {
  }

  /** The last successful call for the session was `callers[i]`. */
  ghost predicate LastFor(callers: seq<Caller>, i: nat, session: string) {
    && i < |callers| && Succeeded(callers[i]) && callers[i].session == session
    && forall j :: i < j < |callers| && Succeeded(callers[j]) ==> callers[j].session != session
  }

  /** A record is that of the last successful call for its session, with the time of that
      call, or was in the file before and no successful call was for its session. */
  ghost predicate RecordExplained(file0: File, callers: seq<Caller>, session: string, record: Toggle) {
    || (exists i: nat :: LastFor(callers, i, session) && callers[i].disable && record == Toggle(true, callers[i].now))
    || (session in file0 && record == file0[session]
        && forall i :: 0 <= i < |callers| && Succeeded(callers[i]) ==> callers[i].session != session)
  }

  lemma ExplainedStill(file0: File, front: seq<Caller>, c: Caller, session: string, record: Toggle)
    requires RecordExplained(file0, front, session, record) && (Succeeded(c) ==> c.session != session)
    ensures RecordExplained(file0, front + [c], session, record)
  {
    if i: nat :| LastFor(front, i, session) && front[i].disable && record == Toggle(true, front[i].now) {
      assert LastFor(front + [c], i, session);
    }
  }

  lemma {:induction false} RecordsExplained(file0: File, callers: seq<Caller>, session: string)
    requires session in Applied(file0, callers)
    ensures RecordExplained(file0, callers, session, Applied(file0, callers)[session])
  {
    if callers != [] {
      var front, c := callers[..|callers| - 1], callers[|callers| - 1];
      assert callers == front + [c];
      if Succeeded(c) && c.session == session {
        assert LastFor(callers, |front|, session);
      } else {
        RecordsExplained(file0, front, session);
        ExplainedStill(file0, front, c, session, Applied(file0, front)[session]);
      }
    }
  }

  /** In every run each record of the file is that of the last successful call for its session,
      or an old one that no successful call was for. */
  lemma RecordsAreLatest(file0: File, es: seq<Event>, session: string)
    requires session in Run(Initial(file0), es).file
    ensures var s := Run(Initial(file0), es); RecordExplained(file0, s.callers, session, s.file[session])
  {
    NoLostUpdate(file0, es);
    RecordsExplained(file0, Run(Initial(file0), es).callers, session);
  }

  lemma {:induction false} OnlyDisabledApplied(file0: File, callers: seq<Caller>, session: string)
    requires (exists i :: 0 <= i < |callers| && Succeeded(callers[i])) && session in Applied(file0, callers)
    ensures Applied(file0, callers)[session].disabled
  {
    var front, c := callers[..|callers| - 1], callers[|callers| - 1];
    if !Succeeded(c) {
      var i :| 0 <= i < |callers| && Succeeded(callers[i]);
      assert Succeeded(front[i]);
      OnlyDisabledApplied(file0, front, session);
    }
  }

  /** Once a call has succeeded, the file holds disabled sessions only. */
  lemma OnlyDisabledKept(file0: File, es: seq<Event>, session: string)
    requires exists i :: 0 <= i < |Run(Initial(file0), es).callers| && Succeeded(Run(Initial(file0), es).callers[i])
    requires session in Run(Initial(file0), es).file
    ensures Run(Initial(file0), es).file[session].disabled
  {
    NoLostUpdate(file0, es);
    OnlyDisabledApplied(file0, Run(Initial(file0), es).callers, session);
  }

  lemma {:induction false} NothingLost(start: set<string>, callers: seq<Caller>)
    requires forall i :: 0 <= i < |callers| && Succeeded(callers[i]) ==> !callers[i].phase.readFailed
    ensures Lost(start, callers) == {}
  {
    if callers != [] {
      NothingLost(start, callers[..|callers| - 1]);
    }
  }

  /** With readable files no update is lost. */
  lemma ReadableStoreKeepsAll(file0: File, es: seq<Event>)
    requires forall i :: 0 <= i < |es| && es[i].Read? ==> !es[i].fails
    ensures var s := Run(Initial(file0), es); Disabled(s.file) == DisabledAfter(Disabled(file0), s.callers)
  {
    ReadsSucceed(Initial(file0), es);
    TogglesInCallOrder(file0, es);
    NothingLost(Disabled(file0), Run(Initial(file0), es).callers);
  }

  ghost predicate NoFailedRead(s: System) {
    forall i :: 0 <= i < |s.callers| && !s.callers[i].phase.Waiting? && !s.callers[i].phase.Running? ==>
      !s.callers[i].phase.readFailed
  }

  lemma {:induction false} ReadsSucceed(s: System, es: seq<Event>)
    requires NoFailedRead(s) && forall i :: 0 <= i < |es| && es[i].Read? ==> !es[i].fails
    ensures NoFailedRead(Run(s, es))
    decreases |es|
  {
    if es != [] {
      ReadsSucceed(Step(s, es[0]), es[1..]);
    }
  }

  lemma RunFive(s: System, a: Event, b: Event, c: Event, d: Event, e: Event)
    ensures Run(s, [a, b, c, d, e]) == Step(Step(Step(Step(Step(s, a), b), c), d), e)
  {
    var s2 := Step(Step(s, a), b);
    assert [a, b, c, d, e][1..] == [b, c, d, e] && [b, c, d, e][1..] == [c, d, e];
    assert [c, d, e][1..] == [d, e] && [d, e][1..] == [e] && [e][1..] == [];
    assert Run(Step(Step(s2, c), d), [e]) == Step(Step(Step(s2, c), d), e);
    assert Run(s2, [c, d, e]) == Run(Step(s2, c), [d, e]);
  }

  /** One call by itself, from begin to release. */
  lemma OneCall(file: File, session: string, disable: bool, at: int, readFails: bool, writeFails: bool)
    ensures var s := Run(Initial(file), [Call(session, disable, at), Begin(0), Read(0, readFails), Write(0, writeFails), Release(0)]);
            var c := Caller(session, disable, at, 0, 1, Released(!writeFails, readFails));
            && s.callers == [c]
            && s.file == if writeFails then file else Toggled(ReadToggleStore(file, readFails), c)
  {
    RunFive(Initial(file), Call(session, disable, at), Begin(0), Read(0, readFails), Write(0, writeFails), Release(0));
    var c := Caller(session, disable, at, 0, 1, Waiting);
    var s1 := Step(Initial(file), Call(session, disable, at));
    assert s1.callers == [c] && s1.resolved == {0};
    var s3 := Step(Step(s1, Begin(0)), Read(0, readFails));
    assert s3.callers == [c.(phase := HasRead(ReadToggleStore(file, readFails), readFails))] && s3.file == file;
  }

  /** A run in which a failed read is taken for an empty store: disabling `b` enables `a`. */
  lemma FailedReadForgets(a: string, b: string, at: int) returns (file0: File, es: seq<Event>)
    requires Storable(a) && Storable(b) && a != b
    ensures es == [Call(b, true, at), Begin(0), Read(0, true), Write(0, false), Release(0)]
    ensures var s, start := Run(Initial(file0), es), Disabled(file0);
            && start == {a} && DisabledAfter(start, s.callers) == {a, b}
            && Lost(start, s.callers) == {a} && Disabled(s.file) == {b}
  {
    file0 := map[a := Toggle(true, at)];
    es := [Call(b, true, at), Begin(0), Read(0, true), Write(0, false), Release(0)];
    OneCall(file0, b, true, at, true, false);
    assert Run(Initial(file0), es).callers[..0] == [];
    TogglesInCallOrder(file0, es);
  }

  // ---------------------------------------------------------------- one lock per store path

  /** All stores at once: `withToggleStoreLock` creates a path's lock on first use. */
  type Stores = map<string, System>

  datatype PathEvent = PathEvent(path: string, event: Event)

  function StoreAt(m: Stores, files: map<string, File>, path: string): System {
    if path in m then m[path] else Initial(if path in files then files[path] else map[])
  }

  function RunAll(m: Stores, files: map<string, File>, es: seq<PathEvent>): Stores
    decreases |es|
  {
    if es == [] then m
    else RunAll(m[es[0].path := Step(StoreAt(m, files, es[0].path), es[0].event)], files, es[1..])
  }

  function EventsOf(es: seq<PathEvent>, path: string): seq<Event> {
    if es == [] then []
    else (if es[0].path == path then [es[0].event] else []) + EventsOf(es[1..], path)
  }

  /** Whatever the interleaving across paths, each store behaves as if it were alone. */
  lemma {:induction false} StoresIndependent(m: Stores, files: map<string, File>, es: seq<PathEvent>, path: string)
    ensures StoreAt(RunAll(m, files, es), files, path) == Run(StoreAt(m, files, path), EventsOf(es, path))
    decreases |es|
  {
    if es != [] {
      var m' := m[es[0].path := Step(StoreAt(m, files, es[0].path), es[0].event)];
      StoresIndependent(m', files, es[1..], path);
      var rest := EventsOf(es[1..], path);
      if es[0].path == path {
        assert EventsOf(es, path) == [es[0].event] + rest;
        assert EventsOf(es, path)[1..] == rest;
      } else {
        assert EventsOf(es, path) == [] + rest == rest;
      }
    }
  }

  // ---------------------------------------------------------------- the lock and the file as the plugin updates them

  class ToggleRuntime {
    var lock: nat
    var resolved: set<nat>
    var callers: seq<Caller>
    var file: File

    ghost function View(): System
      reads this
    {
      System(lock, resolved, callers, file)
    }

    constructor (file: File)
      ensures View() == Initial(file)
    {
      this.lock, this.resolved, this.callers, this.file := 0, {0}, [], file;
    }

    /** The part of `withLock` before its first `await`: remember the last promise of the
        chain and put a new one in its place. */
    method SetSessionDisabled(session: string, disable: bool, now: int)
      modifies this
      ensures View() == Step(old(View()), Call(session, disable, now))
    {
      var previous := lock;
      lock := |callers| + 1;
      callers := callers + [Caller(session, disable, now, previous, lock, Waiting)];
    }

    method BeginTask(i: nat)
      requires i < |callers| && callers[i].phase.Waiting? && callers[i].previous in resolved
      modifies `callers
      ensures View() == Step(old(View()), Begin(i))
    {
      callers := callers[i := callers[i].(phase := Running)];
    }

    method ReadStore(i: nat, fails: bool)
      requires i < |callers| && callers[i].phase.Running?
      modifies `callers
      ensures View() == Step(old(View()), Read(i, fails))
    {
      var sessions := ReadToggleStore(file, fails);
      callers := callers[i := callers[i].(phase := HasRead(sessions, fails))];
    }

    method WriteStore(i: nat, fails: bool)
      requires i < |callers| && callers[i].phase.HasRead?
      modifies `callers, `file
      ensures View() == Step(old(View()), Write(i, fails))
    {
      var c := callers[i];
      var sessions := c.phase.sessions;
      if c.disable && c.session != "__proto__" {
        sessions := sessions[c.session := Toggle(true, c.now)];
      } else if !c.disable {
        sessions := sessions - {c.session};
      }
      if !fails {
        file := sessions;
      }
      callers := callers[i := c.(phase := Settled(!fails, c.phase.readFailed))];
    }

    /** The `finally` block, reached after success and after a throw alike. */
    method ReleaseLock(i: nat)
      requires i < |callers| && callers[i].phase.Settled?
      modifies `callers, `resolved
      ensures View() == Step(old(View()), Release(i))
    {
      var c := callers[i];
      callers := callers[i := c.(phase := Released(c.phase.ok, c.phase.readFailed))];
      resolved := resolved + {c.own};
    }

    /** Lets one event happen, if it can. */
    method Handle(e: Event)
      modifies this
      ensures View() == Step(old(View()), e)
    {
      match e {
        case Call(session, disable, now) =>
          SetSessionDisabled(session, disable, now);
        case Begin(i) =>
          if i < |callers| && callers[i].phase.Waiting? && callers[i].previous in resolved {
            BeginTask(i);
          }
        case Read(i, fails) =>
          if i < |callers| && callers[i].phase.Running? {
            ReadStore(i, fails);
          }
        case Write(i, fails) =>
          if i < |callers| && callers[i].phase.HasRead? {
            WriteStore(i, fails);
          }
        case Release(i) =>
          if i < |callers| && callers[i].phase.Settled? {
            ReleaseLock(i);
          }
      }
    }
  }

  /** The plugin's own fields after any interleaving of calls and continuations. */
  method Interleave(file0: File, es: seq<Event>) returns (runtime: ToggleRuntime)
    ensures fresh(runtime) && runtime.View() == Run(Initial(file0), es)
    ensures runtime.file == Applied(file0, runtime.callers)
    ensures Disabled(runtime.file) ==
            DisabledAfter(Disabled(file0), runtime.callers) - Lost(Disabled(file0), runtime.callers)
    ensures forall i, j :: 0 <= i < j < |runtime.callers| ==> !(Active(runtime.callers[i]) && Active(runtime.callers[j]))
  {
    runtime := new ToggleRuntime(file0);
    for i := 0 to |es|
      invariant fresh(runtime) && Run(runtime.View(), es[i..]) == Run(Initial(file0), es)
    {
      assert es[i..][0] == es[i] && es[i..][1..] == es[i + 1..];
      runtime.Handle(es[i]);
    }
    NoLostUpdate(file0, es);
    TogglesInCallOrder(file0, es);
    MutualExclusion(file0, es);
  }
}
