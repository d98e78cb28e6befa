/** System mounts of WebDAV sessions. A mount is made outside the manager's lock
    and attached under it, so calls interleave between their critical sections. */
module WebDavMounts {
  import opened Wrappers

  type MountId = nat

  datatype Session = Session(root: string, mounted: Option<MountId>)

  /** Where a running call is, between two critical sections. `Releasing` holds the
      mounts it still has to unmount. */
  datatype Call =
    | Mounting(id: string)
    | Mounted(id: string, mount: MountId)
    | Unmounting(id: string, mount: MountId)
    | Detaching(id: string, mount: MountId)
    | Releasing(mounts: set<MountId>)

  /** `results` is what each mount's one unmount returned; `systemCalls` lists the
      unmounts the system was asked for. */
  datatype State = State(
    sessions: map<string, Session>,
    calls: map<nat, Call>,
    created: set<MountId>,
    results: map<MountId, bool>,
    systemCalls: seq<MountId>)

  datatype Action =
    | Open(id: string, root: string)
    | Mount(call: nat, id: string)
    | SystemMount(call: nat, mount: MountId)
    | SystemMountFails(call: nat)
    | Attach(call: nat)
    | Unmount(call: nat, id: string)
    | SystemUnmount(call: nat, ok: bool)
    | Detach(call: nat)
    | Revoke(call: nat, id: string)
    | RevokeRoot(call: nat, root: string)
    | Close(call: nat)
    | Release(call: nat, mount: MountId, ok: bool)
    | Return(call: nat)

  /** Unmounting runs once per mount; later callers get the first answer. */
  function UnmountOnce(s: State, mount: MountId, ok: bool): State
  {
    if mount in s.results then s
    else s.(results := s.results[mount := ok], systemCalls := s.systemCalls + [mount])
  }

  function Without(s: State, call: nat): State
  {
    s.(calls := s.calls - {call})
  }

  function With(s: State, call: nat, c: Call): State
  {
    s.(calls := s.calls[call := c])
  }

  function Detached(s: State, id: string): State
    requires id in s.sessions
  {
    s.(sessions := s.sessions[id := s.sessions[id].(mounted := None)])
  }

  function MountsOf(sessions: map<string, Session>): set<MountId>
  {
    set id | id in sessions && sessions[id].mounted.Some? :: sessions[id].mounted.value
  }

  function OfRoot(s: State, root: string): set<string>
  {
    set id | id in s.sessions && s.sessions[id].root == root
  }

  function Only(sessions: map<string, Session>, ids: set<string>): map<string, Session>
  {
    map id | id in sessions && id in ids :: sessions[id]
  }

  /** One critical section, or one system call between two of them. */
  function Step(s: State, a: Action): State
  {
    match a
    case Open(id, root) =>
      if id in s.sessions then s else s.(sessions := s.sessions[id := Session(root, None)])
    case Mount(c, id) =>
      if c in s.calls || id !in s.sessions || s.sessions[id].mounted.Some? then s else With(s, c, Mounting(id))
    case SystemMount(c, m) =>
      if c in s.calls && s.calls[c].Mounting? && m !in s.created
      then With(s, c, Mounted(s.calls[c].id, m)).(created := s.created + {m}) else s
    case SystemMountFails(c) =>
      if c in s.calls && s.calls[c].Mounting? then Without(s, c) else s
    case Attach(c) =>
      if c !in s.calls || !s.calls[c].Mounted? then s
      else
        var id, m := s.calls[c].id, s.calls[c].mount;
        if id !in s.sessions || s.sessions[id].mounted.Some? then With(s, c, Releasing({m}))
        else Without(s, c).(sessions := s.sessions[id := s.sessions[id].(mounted := Some(m))])
    case Unmount(c, id) =>
      if c in s.calls || id !in s.sessions || s.sessions[id].mounted.None? then s
      else With(s, c, Unmounting(id, s.sessions[id].mounted.value))
    case SystemUnmount(c, ok) =>
      if c !in s.calls || !s.calls[c].Unmounting? then s
      else
        var id, m := s.calls[c].id, s.calls[c].mount;
        var t := UnmountOnce(s, m, ok);
        if t.results[m] then With(t, c, Detaching(id, m)) else Without(t, c)
    case Detach(c) =>
      if c !in s.calls || !s.calls[c].Detaching? then s
      else
        var id, m := s.calls[c].id, s.calls[c].mount;
        if id in s.sessions && s.sessions[id].mounted == Some(m) then Without(Detached(s, id), c) else Without(s, c)
    case Revoke(c, id) =>
      if c in s.calls || id !in s.sessions then s
      else With(s, c, Releasing(MountsOf(Only(s.sessions, {id})))).(sessions := s.sessions - {id})
    case RevokeRoot(c, root) =>
      if c in s.calls then s
      else With(s, c, Releasing(MountsOf(Only(s.sessions, OfRoot(s, root))))).(sessions := s.sessions - OfRoot(s, root))
    case Close(c) =>
      if c in s.calls then s else With(s, c, Releasing(MountsOf(s.sessions))).(sessions := map[])
    case Release(c, m, ok) =>
      if c in s.calls && s.calls[c].Releasing? && m in s.calls[c].mounts
      then With(UnmountOnce(s, m, ok), c, Releasing(s.calls[c].mounts - {m})) else s
    case Return(c) =>
      if c in s.calls && s.calls[c] == Releasing({}) then Without(s, c) else s
  }

  function Run(s: State, actions: seq<Action>): State
  {
    if actions == [] then s else Step(Run(s, actions[..|actions| - 1]), actions[|actions| - 1])
  }

  const START := State(map[], map[], {}, map[], [])

  // -------------------------------------------------------------- accounting

  /** A mount just made, to be attached or given up. */
  function Made(c: Call): set<MountId>
  {
    if c.Mounted? then {c.mount} else {}
  }

  /** Mounts taken out of sessions, still to be unmounted. */
  function Owed(c: Call): set<MountId>
  {
    if c.Releasing? then c.mounts else {}
  }

  /** A mount an unmount call found in a session. */
  function Sought(c: Call): set<MountId>
  {
    if c.Unmounting? then {c.mount} else {}
  }

  function Unmounted(c: Call): set<MountId>
  {
    if c.Detaching? then {c.mount} else {}
  }

  function Gather(part: Call -> set<MountId>, calls: map<nat, Call>): set<MountId>
  {
    set c, m | c in calls && m in part(calls[c]) :: m
  }

  /** Every mount there is: in the hands of a running call, recorded in a live
      session, or its unmount has been called. */
  ghost predicate Accounted(s: State)
  {
    s.created == Gather(Made, s.calls) + Gather(Owed, s.calls) + MountsOf(s.sessions) + s.results.Keys
  }

  ghost predicate SessionsApart(sessions: map<string, Session>)
  {
    forall i, j | i in sessions && j in sessions && i != j && sessions[i].mounted.Some? ::
      sessions[i].mounted != sessions[j].mounted
  }

  ghost predicate MakersApart(calls: map<nat, Call>)
  {
    forall c, d | c in calls && d in calls && c != d && calls[c].Mounted? && calls[d].Mounted? ::
      calls[c].mount != calls[d].mount
  }

  /** No two sessions record one mount, and a mount just made is nowhere else. */
  ghost predicate Apart(s: State)
  {
    && SessionsApart(s.sessions)
    && MakersApart(s.calls)
    && Gather(Made, s.calls) !! MountsOf(s.sessions)
    && Gather(Made, s.calls) !! Gather(Owed, s.calls)
    && Gather(Made, s.calls) !! Gather(Sought, s.calls)
    && Gather(Made, s.calls) !! s.results.Keys
    && Gather(Sought, s.calls) <= s.created
    && Gather(Unmounted, s.calls) <= s.results.Keys
  }

  /** The system is asked at most once to unmount a mount. */
  ghost predicate Once(s: State)
  {
    && (forall i | 0 <= i < |s.systemCalls| :: s.systemCalls[i] in s.results)
    && (forall i, j | 0 <= i < j < |s.systemCalls| :: s.systemCalls[i] != s.systemCalls[j])
  }

  ghost predicate Sound(s: State)
  {
    Accounted(s) && Apart(s) && Once(s)
  }

  lemma InGather(part: Call -> set<MountId>, calls: map<nat, Call>, c: nat, m: MountId)
    requires c in calls && m in part(calls[c])
    ensures m in Gather(part, calls)
  {
  }

  lemma GatherWithout(part: Call -> set<MountId>, calls: map<nat, Call>, c: nat)
    requires c in calls
    ensures Gather(part, calls) == Gather(part, calls - {c}) + part(calls[c])
  {
    forall m | m in Gather(part, calls) ensures m in Gather(part, calls - {c}) + part(calls[c]) {
      var d :| d in calls && m in part(calls[d]);
      if d != c {
        assert d in calls - {c} && m in part((calls - {c})[d]);
      }
    }
    forall m | m in Gather(part, calls - {c}) + part(calls[c]) ensures m in Gather(part, calls) {
      if m !in part(calls[c]) {
        var d :| d in calls - {c} && m in part((calls - {c})[d]);
        assert d in calls;
      }
    }
  }

  lemma GatherWith(part: Call -> set<MountId>, calls: map<nat, Call>, c: nat, call: Call)
    ensures Gather(part, calls[c := call]) == Gather(part, calls - {c}) + part(call)
    ensures Gather(part, calls) == Gather(part, calls - {c}) + if c in calls then part(calls[c]) else {}
  {
    GatherWithout(part, calls[c := call], c);
    assert calls[c := call] - {c} == calls - {c};
    if c in calls {
      GatherWithout(part, calls, c);
    } else {
      assert calls - {c} == calls;
    }
  }

  lemma SessionsWithout(sessions: map<string, Session>, ids: set<string>)
    ensures MountsOf(sessions) == MountsOf(sessions - ids) + MountsOf(Only(sessions, ids))
  {
    forall m | m in MountsOf(sessions) ensures m in MountsOf(sessions - ids) + MountsOf(Only(sessions, ids)) {
      var id :| id in sessions && sessions[id].mounted == Some(m);
      if id in ids {
        assert id in Only(sessions, ids);
      } else {
        assert id in sessions - ids;
      }
    }
    forall m | m in MountsOf(sessions - ids) + MountsOf(Only(sessions, ids)) ensures m in MountsOf(sessions) {
      if m in MountsOf(sessions - ids) {
        var id :| id in sessions - ids && (sessions - ids)[id].mounted == Some(m);
        assert id in sessions;
      }
    }
  }

  lemma SessionsWith(sessions: map<string, Session>, id: string, session: Session)
    ensures MountsOf(sessions[id := session]) ==
            MountsOf(sessions - {id}) + if session.mounted.Some? then {session.mounted.value} else {}
  {
    var next := sessions[id := session];
    SessionsWithout(next, {id});
    assert next - {id} == sessions - {id};
    assert Only(next, {id}) == map[id := session];
  }

  // -------------------------------------------------------------- every step

  predicate Splits(part: Call -> set<MountId>, calls: map<nat, Call>, c: nat, call: Call)
  {
    && Gather(part, calls[c := call]) == Gather(part, calls - {c}) + part(call)
    && Gather(part, calls) == Gather(part, calls - {c}) + if c in calls then part(calls[c]) else {}
  }

  lemma CallChanges(calls: map<nat, Call>, c: nat, call: Call)
    ensures Splits(Made, calls, c, call) && Splits(Owed, calls, c, call)
    ensures Splits(Sought, calls, c, call) && Splits(Unmounted, calls, c, call)
  {
    GatherWith(Made, calls, c, call);
    GatherWith(Owed, calls, c, call);
    GatherWith(Sought, calls, c, call);
    GatherWith(Unmounted, calls, c, call);
  }

  lemma MakerAlone(calls: map<nat, Call>, c: nat)
    requires MakersApart(calls) && c in calls && calls[c].Mounted?
    ensures calls[c].mount !in Gather(Made, calls - {c})
  {
    forall d | d in calls - {c} ensures calls[c].mount !in Made((calls - {c})[d]) {
      assert (calls - {c})[d] == calls[d];
    }
  }

  lemma MakersStayApart(calls: map<nat, Call>, c: nat, call: Call)
    requires MakersApart(calls) && (call.Mounted? ==> call.mount !in Gather(Made, calls))
    ensures MakersApart(calls[c := call]) && MakersApart(calls - {c})
  {
    forall d | d in calls && calls[d].Mounted? ensures calls[d].mount in Gather(Made, calls) {
      InGather(Made, calls, d, calls[d].mount);
    }
  }

  lemma OpenKeeps(s: State, id: string, root: string)
    requires Sound(s) && id !in s.sessions
    ensures Sound(Step(s, Open(id, root)))
  {
    SessionsWith(s.sessions, id, Session(root, None));
    assert s.sessions - {id} == s.sessions;
  }

  /** A call that starts, or goes on without mounts of its own. */
  lemma PlainCallKeeps(s: State, c: nat, call: Call)
    requires Sound(s) && (c in s.calls ==> s.calls[c].Mounting?)
    requires call.Mounting? || (call.Unmounting? && call.mount in MountsOf(s.sessions))
    ensures Sound(With(s, c, call))
  {
    CallChanges(s.calls, c, call);
    MakersStayApart(s.calls, c, call);
  }

  /** A call that ends and owes nothing. */
  lemma EndKeeps(s: State, c: nat)
    requires Sound(s) && c in s.calls && !s.calls[c].Mounted? && Owed(s.calls[c]) == {}
    ensures Sound(Without(s, c))
  {
    CallChanges(s.calls, c, s.calls[c]);
    MakersStayApart(s.calls, c, Releasing({}));
  }

  lemma SystemMountKeeps(s: State, c: nat, m: MountId)
    requires Sound(s) && c in s.calls && s.calls[c].Mounting? && m !in s.created
    ensures Sound(Step(s, SystemMount(c, m)))
  {
    var call := Mounted(s.calls[c].id, m);
    CallChanges(s.calls, c, call);
    MakersStayApart(s.calls, c, call);
  }

  /** The session a mount was made for can still take it. */
  predicate Takes(s: State, id: string)
  {
    id in s.sessions && s.sessions[id].mounted.None?
  }

  /** Attaching ends in one of two ways: the mount is recorded in its session and in
      no other and the call is over, or no session has it and the call must unmount it. */
  lemma AttachKeeps(s: State, c: nat)
    requires Sound(s) && c in s.calls && s.calls[c].Mounted?
    ensures Sound(Step(s, Attach(c)))
    ensures var t, id, m := Step(s, Attach(c)), s.calls[c].id, s.calls[c].mount;
            if Takes(s, id)
            then c !in t.calls && forall i :: i in t.sessions && t.sessions[i].mounted == Some(m) <==> i == id
            else c in t.calls && Owed(t.calls[c]) == {m} && m !in MountsOf(t.sessions) && m !in t.results
  {
    InGather(Made, s.calls, c, s.calls[c].mount);
    if Takes(s, s.calls[c].id) {
      AttachRecords(s, c);
    } else {
      AttachGivesUp(s, c);
    }
  }

  lemma AttachGivesUp(s: State, c: nat)
    requires Sound(s) && c in s.calls && s.calls[c].Mounted?
    ensures Sound(With(s, c, Releasing({s.calls[c].mount})))
  {
    CallChanges(s.calls, c, Releasing({s.calls[c].mount}));
    MakerAlone(s.calls, c);
    MakersStayApart(s.calls, c, Releasing({s.calls[c].mount}));
  }

  lemma AttachRecords(s: State, c: nat)
    requires Sound(s) && c in s.calls && s.calls[c].Mounted? && Takes(s, s.calls[c].id)
    ensures var id, m := s.calls[c].id, s.calls[c].mount;
            Sound(Without(s, c).(sessions := s.sessions[id := s.sessions[id].(mounted := Some(m))]))
  {
    var id, m := s.calls[c].id, s.calls[c].mount;
    CallChanges(s.calls, c, Mounting(id));
    MakerAlone(s.calls, c);
    MakersStayApart(s.calls, c, Mounting(id));
    InGather(Made, s.calls, c, m);
    AttachedSessions(s.sessions, id, m);
  }

  lemma AttachedSessions(sessions: map<string, Session>, id: string, m: MountId)
    requires id in sessions && sessions[id].mounted.None? && m !in MountsOf(sessions) && SessionsApart(sessions)
    ensures var next := sessions[id := sessions[id].(mounted := Some(m))];
            MountsOf(next) == MountsOf(sessions) + {m} && SessionsApart(next)
  {
    SessionsWith(sessions, id, sessions[id].(mounted := Some(m)));
    SessionsWith(sessions, id, sessions[id]);
    assert sessions[id := sessions[id]] == sessions;
    forall i | i in sessions && sessions[i].mounted.Some? ensures sessions[i].mounted.value in MountsOf(sessions) {
    }
  }

  /** Calling a mount's unmount, whatever it returns. */
  lemma UnmountOnceKeeps(s: State, m: MountId, ok: bool)
    requires Sound(s) && m in s.created && m !in Gather(Made, s.calls)
    ensures Sound(UnmountOnce(s, m, ok)) && m in UnmountOnce(s, m, ok).results
  {
    var t := UnmountOnce(s, m, ok);
    if m !in s.results {
      assert t.results.Keys == s.results.Keys + {m};
    }
  }

  lemma SystemUnmountKeeps(s: State, c: nat, ok: bool)
    requires Sound(s) && c in s.calls && s.calls[c].Unmounting?
    ensures Sound(Step(s, SystemUnmount(c, ok)))
  {
    var id, m := s.calls[c].id, s.calls[c].mount;
    InGather(Sought, s.calls, c, m);
    UnmountOnceKeeps(s, m, ok);
    var t := UnmountOnce(s, m, ok);
    if t.results[m] {
      FoundKeeps(t, c, Detaching(id, m));
    } else {
      EndKeeps(t, c);
    }
  }

  lemma FoundKeeps(s: State, c: nat, call: Call)
    requires Sound(s) && c in s.calls && s.calls[c].Unmounting?
    requires call.Detaching? && call.mount in s.results
    ensures Sound(With(s, c, call))
  {
    CallChanges(s.calls, c, call);
    MakersStayApart(s.calls, c, call);
  }

  lemma DetachKeeps(s: State, c: nat)
    requires Sound(s) && c in s.calls && s.calls[c].Detaching?
    ensures Sound(Step(s, Detach(c)))
  {
    var id, m := s.calls[c].id, s.calls[c].mount;
    InGather(Unmounted, s.calls, c, m);
    EndKeeps(s, c);
    if id in s.sessions && s.sessions[id].mounted == Some(m) {
      DetachedSessions(s.sessions, id, m);
    }
  }

  lemma DetachedSessions(sessions: map<string, Session>, id: string, m: MountId)
    requires id in sessions && sessions[id].mounted == Some(m) && SessionsApart(sessions)
    ensures var next := sessions[id := sessions[id].(mounted := None)];
            MountsOf(sessions) == MountsOf(next) + {m} && SessionsApart(next)
  {
    SessionsWith(sessions, id, sessions[id].(mounted := None));
    SessionsWith(sessions, id, sessions[id]);
    assert sessions[id := sessions[id]] == sessions;
  }

  /** Taking sessions away hands their mounts to the call that does it. */
  lemma TakeKeeps(s: State, c: nat, ids: set<string>)
    requires Sound(s) && c !in s.calls
    ensures Sound(With(s, c, Releasing(MountsOf(Only(s.sessions, ids)))).(sessions := s.sessions - ids))
  {
    var call := Releasing(MountsOf(Only(s.sessions, ids)));
    CallChanges(s.calls, c, call);
    MakersStayApart(s.calls, c, call);
    SessionsWithout(s.sessions, ids);
  }

  lemma ReleaseKeeps(s: State, c: nat, m: MountId, ok: bool)
    requires Sound(s) && c in s.calls && s.calls[c].Releasing? && m in s.calls[c].mounts
    ensures Sound(Step(s, Release(c, m, ok)))
  {
    InGather(Owed, s.calls, c, m);
    UnmountOnceKeeps(s, m, ok);
    OwesLess(UnmountOnce(s, m, ok), c, m);
  }

  lemma OwesLess(s: State, c: nat, m: MountId)
    requires Sound(s) && c in s.calls && s.calls[c].Releasing? && m in s.results
    ensures Sound(With(s, c, Releasing(s.calls[c].mounts - {m})))
  {
    CallChanges(s.calls, c, Releasing(s.calls[c].mounts - {m}));
    MakersStayApart(s.calls, c, Releasing(s.calls[c].mounts - {m}));
  }

  lemma StepKeeps(s: State, a: Action)
    requires Sound(s)
    ensures Sound(Step(s, a))
  {
    if Step(s, a) != s {
      match a
      case Open(id, root) => OpenKeeps(s, id, root);
      case Mount(c, id) => PlainCallKeeps(s, c, Mounting(id));
      case SystemMount(c, m) => SystemMountKeeps(s, c, m);
      case SystemMountFails(c) => EndKeeps(s, c);
      case Attach(c) => AttachKeeps(s, c);
      case Unmount(c, id) => PlainCallKeeps(s, c, Unmounting(id, s.sessions[id].mounted.value));
      case SystemUnmount(c, ok) => SystemUnmountKeeps(s, c, ok);
      case Detach(c) => DetachKeeps(s, c);
      case Revoke(c, id) => TakeKeeps(s, c, {id});
      case RevokeRoot(c, root) => TakeKeeps(s, c, OfRoot(s, root));
      case Close(c) =>
        TakeKeeps(s, c, s.sessions.Keys);
        assert Only(s.sessions, s.sessions.Keys) == s.sessions;
        assert s.sessions - s.sessions.Keys == map[];
      case Release(c, m, ok) => ReleaseKeeps(s, c, m, ok);
      case Return(c) => EndKeeps(s, c);
    }
  }

  /** In every interleaving no mount is forgotten, none is recorded twice, and the
      system is asked to unmount each at most once. */
  lemma {:induction false} NoMountIsForgotten(actions: seq<Action>)
    ensures Sound(Run(START, actions))
  {
    if actions != [] {
      NoMountIsForgotten(actions[..|actions| - 1]);
      StepKeeps(Run(START, actions[..|actions| - 1]), actions[|actions| - 1]);
    }
  }

  /** When no call is running, a mount that no session records has been unmounted or
      its unmount has failed; without sessions that is every mount. */
  lemma NothingLeftWhenQuiet(actions: seq<Action>)
    requires Run(START, actions).calls == map[]
    ensures var s := Run(START, actions); s.created == MountsOf(s.sessions) + s.results.Keys
    ensures var s := Run(START, actions); s.sessions == map[] ==> s.created == s.results.Keys
  {
    NoMountIsForgotten(actions);
  }

  lemma StepKeepsAnswer(s: State, a: Action, m: MountId)
    requires m in s.results
    ensures m in Step(s, a).results && Step(s, a).results[m] == s.results[m]
  {
  }

  /** The first answer stays: a failed unmount is never tried again. */
  lemma {:induction false} FirstAnswerStays(actions: seq<Action>, n: nat, m: MountId)
    requires n <= |actions| && m in Run(START, actions[..n]).results
    ensures m in Run(START, actions).results && Run(START, actions).results[m] == Run(START, actions[..n]).results[m]
  {
    if n == |actions| {
      assert actions[..n] == actions;
    } else {
      var before := actions[..|actions| - 1];
      assert before[..n] == actions[..n];
      FirstAnswerStays(before, n, m);
      StepKeepsAnswer(Run(START, before), actions[|actions| - 1], m);
    }
  }

  // ------------------------------------------------- how a mount leaves its session

  /** A call that takes a mount out of its session has seen it unmounted. */
  ghost predicate DetachesUnmounted(s: State)
  {
    forall c | c in s.calls && s.calls[c].Detaching? ::
      s.calls[c].mount in s.results && s.results[s.calls[c].mount]
  }

  lemma StepDetachesUnmounted(s: State, a: Action)
    requires DetachesUnmounted(s)
    ensures DetachesUnmounted(Step(s, a))
  {
    var t := Step(s, a);
    forall c | c in t.calls && t.calls[c].Detaching?
      ensures t.calls[c].mount in t.results && t.results[t.calls[c].mount]
    {
      if c in s.calls && s.calls[c] == t.calls[c] {
        StepKeepsAnswer(s, a, t.calls[c].mount);
      }
    }
  }

  lemma {:induction false} RunDetachesUnmounted(actions: seq<Action>)
    ensures DetachesUnmounted(Run(START, actions))
  {
    if actions != [] {
      RunDetachesUnmounted(actions[..|actions| - 1]);
      StepDetachesUnmounted(Run(START, actions[..|actions| - 1]), actions[|actions| - 1]);
    }
  }

  /** In every run a live session loses its mount only after the system has unmounted
      it: a mount whose unmount failed stays recorded. */
  lemma RecordedUntilUnmounted(actions: seq<Action>, a: Action, id: string, m: MountId)
    requires var s, t := Run(START, actions), Step(Run(START, actions), a);
             id in s.sessions && s.sessions[id].mounted == Some(m)
             && id in t.sessions && t.sessions[id].mounted != Some(m)
    ensures var s, t := Run(START, actions), Step(Run(START, actions), a);
            t.sessions[id] == s.sessions[id].(mounted := None) && m in s.results && s.results[m]
  {
    RunDetachesUnmounted(actions);
  }

  /** Ending sessions takes exactly those away, and the mounts they had are what the
      call still has to unmount. */
  ghost predicate Ended(s: State, t: State, c: nat, gone: iset<string>)
  {
    && (forall i :: i in t.sessions <==> i in s.sessions && i !in gone)
    && (forall i | i in t.sessions :: t.sessions[i] == s.sessions[i])
    && c in t.calls && t.calls[c].Releasing?
    && forall m :: m in t.calls[c].mounts <==>
         exists i :: i in s.sessions && i in gone && s.sessions[i].mounted == Some(m)
  }

  lemma EndedSessionsAreGone(s: State, c: nat, id: string, root: string)
    requires c !in s.calls && id in s.sessions
    ensures Ended(s, Step(s, Revoke(c, id)), c, iset{id})
    ensures Ended(s, Step(s, RevokeRoot(c, root)), c, iset i | i in s.sessions && s.sessions[i].root == root)
    ensures Ended(s, Step(s, Close(c)), c, iset i | i in s.sessions)
  {
    TakenIsEnded(s, c, {id}, iset{id});
    assert Ended(s, Step(s, Revoke(c, id)), c, iset{id});
    RootIsEnded(s, c, root);
    AllAreEnded(s, c);
  }

  lemma RootIsEnded(s: State, c: nat, root: string)
    requires c !in s.calls
    ensures Ended(s, Step(s, RevokeRoot(c, root)), c, iset i | i in s.sessions && s.sessions[i].root == root)
  {
    TakenIsEnded(s, c, OfRoot(s, root), iset i | i in s.sessions && s.sessions[i].root == root);
  }

  lemma AllAreEnded(s: State, c: nat)
    requires c !in s.calls
    ensures Ended(s, Step(s, Close(c)), c, iset i | i in s.sessions)
  {
    TakenIsEnded(s, c, s.sessions.Keys, iset i | i in s.sessions);
    assert Only(s.sessions, s.sessions.Keys) == s.sessions && s.sessions - s.sessions.Keys == map[];
  }

  lemma TakenIsEnded(s: State, c: nat, ids: set<string>, gone: iset<string>)
    requires c !in s.calls && forall i | i in s.sessions :: i in ids <==> i in gone
    ensures Ended(s, With(s, c, Releasing(MountsOf(Only(s.sessions, ids)))).(sessions := s.sessions - ids), c, gone)
  {
    var taken := Only(s.sessions, ids);
    forall m
      ensures m in MountsOf(taken) <==> exists i :: i in s.sessions && i in gone && s.sessions[i].mounted == Some(m)
    {
      if m in MountsOf(taken) {
        var i :| i in taken && taken[i].mounted == Some(m);
        assert i in s.sessions && i in gone;
      }
      if i :| i in s.sessions && i in gone && s.sessions[i].mounted == Some(m) {
        assert i in taken;
      }
    }
  }

  /** A mount is begun only for a live session that has none, and an unmount only of
      the mount that a live session has. */
  lemma CallsBegin(s: State, c: nat, id: string)
    requires c !in s.calls
    ensures c in Step(s, Mount(c, id)).calls <==> Takes(s, id)
    ensures Takes(s, id) ==> Step(s, Mount(c, id)) == With(s, c, Mounting(id))
    ensures c in Step(s, Unmount(c, id)).calls <==> id in s.sessions && s.sessions[id].mounted.Some?
    ensures id in s.sessions && s.sessions[id].mounted.Some? ==>
              Step(s, Unmount(c, id)) == With(s, c, Unmounting(id, s.sessions[id].mounted.value))
  {
  }

  /** The answer that is kept is the system's first, whichever call asked for it. */
  lemma AnswerIsTheSystems(s: State, c: nat, m: MountId, ok: bool)
    requires c in s.calls && m !in s.results
    ensures s.calls[c].Unmounting? && s.calls[c].mount == m ==>
              Step(s, SystemUnmount(c, ok)).results == s.results[m := ok]
    ensures s.calls[c].Releasing? && m in s.calls[c].mounts ==>
              Step(s, Release(c, m, ok)).results == s.results[m := ok]
  {
  }
}
