/** Writers of one root configuration in any interleaving, under the lock, each of
    them dying or giving up anywhere. */
module RootConfigRuns {
  import opened RootConfig

  /** Where a writer is. `done` counts the fields written into its staged file. */
  datatype Writer =
    | Idle
    | Locked(u: Update)
    | Loaded(u: Update, key: string)
    | Writing(u: Update, memory: Config, writes: seq<(Field, string)>, done: nat, file: File)
    | Finished

  datatype Lock = Free | HeldBy(writer: nat)

  /** The log is not on disk: it lists the commits in the order they happened. */
  datatype State = State(config: File, lock: Lock, writers: map<nat, Writer>, log: seq<Update>)

  datatype Action =
    | Acquire(w: nat, u: Update)
    | Load(w: nat)
    | Stage(w: nat)
    | Tear(w: nat)
    | Save(w: nat)
    | SaveFails(w: nat)
    | Commit(w: nat)
    | Leave(w: nat)

  function At(s: State, w: nat): Writer
  {
    if w in s.writers then s.writers[w] else Idle
  }

  function Put(s: State, w: nat, writer: Writer): State
  {
    s.(writers := s.writers[w := writer])
  }

  /** How many leading writes may fail without stopping the change. */
  function Ignored(u: Update): nat
  {
    if u.NewPassword? then 2 else 0
  }

  /** One step of one writer; a step that is not its turn changes nothing. Leaving
      is returning with an error, returning with success, or being killed: the lock
      goes, the staged file is never read again. */
  function Step(c: Crypto, s: State, a: Action): State
  {
    match a
    case Acquire(w, u) =>
      if At(s, w).Idle? && s.lock.Free? then Put(s, w, Locked(u)).(lock := HeldBy(w)) else s
    case Load(w) =>
      if At(s, w).Locked? && s.config.Whole? && Checked(c, s.config.config, At(s, w).u).Content?
      then Put(s, w, Loaded(At(s, w).u, Checked(c, s.config.config, At(s, w).u).key)) else s
    case Stage(w) =>
      if At(s, w).Loaded? && s.config.Whole?
      then Put(s, w, Writing(At(s, w).u, s.config.config,
                             Writes(c, s.config.config, At(s, w).u, At(s, w).key), 0, s.config))
      else s
    case Tear(w) =>
      if At(s, w).Writing? && At(s, w).done < |At(s, w).writes| then Put(s, w, At(s, w).(file := Torn)) else s
    case Save(w) =>
      if At(s, w).Writing? && At(s, w).done < |At(s, w).writes|
      then
        var me := At(s, w);
        var next := me.memory[me.writes[me.done].0 := me.writes[me.done].1];
        Put(s, w, me.(memory := next, done := me.done + 1, file := Whole(next)))
      else s
    case SaveFails(w) =>
      if At(s, w).Writing? && At(s, w).done < Ignored(At(s, w).u) && At(s, w).done < |At(s, w).writes|
      then
        var me := At(s, w);
        Put(s, w, me.(memory := me.memory[me.writes[me.done].0 := me.writes[me.done].1],
                      done := me.done + 1, file := Torn))
      else s
    case Commit(w) =>
      if At(s, w).Writing? && At(s, w).done == |At(s, w).writes|
      then Put(s, w, Finished).(config := At(s, w).file, log := s.log + [At(s, w).u])
      else s
    case Leave(w) =>
      if At(s, w).Idle? then s else Put(s, w, Idle).(lock := Free)
  }

  function Run(c: Crypto, s: State, actions: seq<Action>): State
  {
    if actions == [] then s else Step(c, Run(c, s, actions[..|actions| - 1]), actions[|actions| - 1])
  }

  /** What a writer in the middle knows about the configuration it will replace. */
  ghost predicate UpToDate(c: Crypto, cfg: Config, me: Writer)
  {
    && (me.Loaded? ==> Checked(c, cfg, me.u) == Content(me.key))
    && (me.Writing? ==>
          && Checked(c, cfg, me.u).Content?
          && me.writes == Writes(c, cfg, me.u, Checked(c, cfg, me.u).key)
          && me.done <= |me.writes|
          && me.memory == WriteAll(cfg, me.writes[..me.done])
          && (me.done > Ignored(me.u) ==> me.done < |me.writes| || me.file == Whole(me.memory)))
  }

  ghost predicate Sound(c: Crypto, first: Config, s: State)
  {
    && s.config == Whole(ApplyAll(c, first, s.log))
    && Accepted(c, first, s.log)
    && (forall w :: At(s, w).Idle? || s.lock == HeldBy(w))
    && (forall w :: UpToDate(c, s.config.config, At(s, w)))
  }

  lemma MoreWrites(u: Update)
    ensures forall c, cfg, key :: |Writes(c, cfg, u, key)| > Ignored(u)
  {
  }

  lemma SaveKeeps(c: Crypto, first: Config, s: State, w: nat, file: File)
    requires Sound(c, first, s) && At(s, w).Writing? && At(s, w).done < |At(s, w).writes|
    requires var me := At(s, w);
             var next := me.memory[me.writes[me.done].0 := me.writes[me.done].1];
             file == Whole(next) || me.done < Ignored(me.u)
    ensures var me := At(s, w);
            var next := me.memory[me.writes[me.done].0 := me.writes[me.done].1];
            UpToDate(c, s.config.config, me.(memory := next, done := me.done + 1, file := file))
  {
    var me := At(s, w);
    assert me.writes[..me.done + 1][..me.done] == me.writes[..me.done];
    MoreWrites(me.u);
  }

  /** The state after a commit. */
  function AfterCommit(s: State, w: nat, u: Update, file: File): State
  {
    State(file, s.lock, s.writers[w := Finished], s.log + [u])
  }

  lemma CommitKeeps(c: Crypto, first: Config, s: State, w: nat)
    requires Sound(c, first, s) && At(s, w).Writing? && At(s, w).done == |At(s, w).writes|
    ensures Sound(c, first, Step(c, s, Commit(w)))
  {
    assert Step(c, s, Commit(w)) == AfterCommit(s, w, At(s, w).u, At(s, w).file);
    CommittedFile(c, first, s, w);
    CommittedIsSound(c, first, s, w, At(s, w).u, At(s, w).file);
  }

  lemma CommittedIsSound(c: Crypto, first: Config, s: State, w: nat, u: Update, file: File)
    requires Sound(c, first, s) && !At(s, w).Idle? && Checked(c, s.config.config, u).Content?
    requires file == Whole(Apply(c, s.config.config, u))
    ensures Sound(c, first, AfterCommit(s, w, u, file))
  {
    AcceptedOneMore(c, first, s.log, u);
    HolderAlone(c, first, s, AfterCommit(s, w, u, file), w);
  }

  /** What is committed is the whole new record. */
  lemma CommittedFile(c: Crypto, first: Config, s: State, w: nat)
    requires Sound(c, first, s) && At(s, w).Writing? && At(s, w).done == |At(s, w).writes|
    ensures Checked(c, s.config.config, At(s, w).u).Content?
    ensures At(s, w).file == Whole(Apply(c, s.config.config, At(s, w).u))
  {
    var me := At(s, w);
    MoreWrites(me.u);
    assert me.writes[..me.done] == me.writes;
    assert UpToDate(c, s.config.config, me);
  }

  lemma OthersIdle(c: Crypto, first: Config, s: State, w: nat)
    requires Sound(c, first, s) && !At(s, w).Idle?
    ensures s.lock == HeldBy(w) && forall v | v != w :: At(s, v).Idle?
  {
  }

  /** When the holder is done the configuration may change: nobody else has read it. */
  lemma HolderAlone(c: Crypto, first: Config, s: State, t: State, w: nat)
    requires Sound(c, first, s) && !At(s, w).Idle? && t.config.Whole?
    requires t.writers == s.writers[w := Finished] && t.lock == s.lock
    ensures forall v :: At(t, v).Idle? || t.lock == HeldBy(v)
    ensures forall v :: UpToDate(c, t.config.config, At(t, v))
  {
    OthersIdle(c, first, s, w);
    forall v ensures UpToDate(c, t.config.config, At(t, v)) {
      assert v != w ==> At(t, v) == At(s, v);
    }
  }

  lemma AcceptedOneMore(c: Crypto, first: Config, log: seq<Update>, u: Update)
    requires Accepted(c, first, log) && Checked(c, ApplyAll(c, first, log), u).Content?
    ensures Accepted(c, first, log + [u])
    ensures ApplyAll(c, first, log + [u]) == Apply(c, ApplyAll(c, first, log), u)
  {
    var longer := log + [u];
    assert longer[..|log|] == log;
    forall i | 0 <= i < |longer| ensures Checked(c, ApplyAll(c, first, longer[..i]), longer[i]).Content? {
      assert i < |log| ==> longer[..i] == log[..i];
    }
  }

  /** The lock holder moves on, knowing what it must. */
  lemma HolderKeeps(c: Crypto, first: Config, s: State, w: nat, me: Writer)
    requires Sound(c, first, s) && !At(s, w).Idle? && UpToDate(c, s.config.config, me)
    ensures Sound(c, first, Put(s, w, me))
  {
  }

  lemma FreshKeeps(c: Crypto, cfg: Config, u: Update, key: string)
    requires Checked(c, cfg, u) == Content(key)
    ensures UpToDate(c, cfg, Writing(u, cfg, Writes(c, cfg, u, key), 0, Whole(cfg)))
  {
    assert WriteAll(cfg, []) == cfg;
  }

  lemma StepKeeps(c: Crypto, first: Config, s: State, a: Action)
    requires Sound(c, first, s)
    ensures Sound(c, first, Step(c, s, a))
  {
    if Step(c, s, a) != s {
      match a
      case Acquire(w, u) =>
      case Load(w) =>
        HolderKeeps(c, first, s, w, Loaded(At(s, w).u, Checked(c, s.config.config, At(s, w).u).key));
      case Stage(w) =>
        var me := At(s, w);
        FreshKeeps(c, s.config.config, me.u, me.key);
        HolderKeeps(c, first, s, w, Writing(me.u, s.config.config,
                                            Writes(c, s.config.config, me.u, me.key), 0, s.config));
      case Tear(w) =>
        HolderKeeps(c, first, s, w, At(s, w).(file := Torn));
      case Save(w) =>
        var me := At(s, w);
        var next := me.memory[me.writes[me.done].0 := me.writes[me.done].1];
        SaveKeeps(c, first, s, w, Whole(next));
        HolderKeeps(c, first, s, w, me.(memory := next, done := me.done + 1, file := Whole(next)));
      case SaveFails(w) =>
        var me := At(s, w);
        var next := me.memory[me.writes[me.done].0 := me.writes[me.done].1];
        SaveKeeps(c, first, s, w, Torn);
        HolderKeeps(c, first, s, w, me.(memory := next, done := me.done + 1, file := Torn));
      case Commit(w) =>
        CommitKeeps(c, first, s, w);
      case Leave(w) =>
    }
  }

  /** In every run the configuration is the first one with all committed changes
      applied in their order: none is lost, none is half there. */
  lemma {:induction false} NoUpdateIsLost(c: Crypto, first: Config, actions: seq<Action>)
    ensures Sound(c, first, Run(c, State(Whole(first), Free, map[], []), actions))
  {
    if actions != [] {
      NoUpdateIsLost(c, first, actions[..|actions| - 1]);
      StepKeeps(c, first, Run(c, State(Whole(first), Free, map[], []), actions[..|actions| - 1]),
                actions[|actions| - 1]);
    }
  }

  /** And the password set by the last committed change opens the root to the key it
      was created with. */
  lemma PasswordOpensAfterAnyRun(c: Crypto, first: Config, password: string, content: string, actions: seq<Action>)
    requires Lawful(c) && Opens(c, first, password, content)
    ensures var s := Run(c, State(Whole(first), Free, map[], []), actions);
            s.config.Whole? && Opens(c, s.config.config, CurrentPassword(password, s.log), content)
  {
    NoUpdateIsLost(c, first, actions);
    var s := Run(c, State(Whole(first), Free, map[], []), actions);
    LastPasswordOpens(c, first, s.log, password, content);
  }

  /** Every other password is told that it is wrong. */
  lemma OthersRefusedAfterAnyRun(c: Crypto, first: Config, password: string, content: string, actions: seq<Action>,
                                 other: string)
    requires Lawful(c) && CollisionFree(c) && Opens(c, first, password, content)
    ensures var s := Run(c, State(Whole(first), Free, map[], []), actions);
            s.config.Whole? &&
            (other != CurrentPassword(password, s.log) ==> Unlock(c, s.config.config, other) == WrongPassword)
  {
    NoUpdateIsLost(c, first, actions);
    OnlyLastPasswordOpens(c, first, Run(c, State(Whole(first), Free, map[], []), actions).log, password, content,
                          other);
  }

  // ------------------------------------------------- one writer, undisturbed

  function Saving(before: seq<Action>, w: nat, saves: nat): seq<Action>
  {
    if saves == 0 then before else Saving(before, w, saves - 1) + [Save(w)]
  }

  function Opening(w: nat, u: Update): seq<Action>
  {
    [Acquire(w, u)] + [Load(w)] + [Stage(w)]
  }

  /** The actions of a change that goes through. */
  function Changing(c: Crypto, cfg: Config, w: nat, u: Update): seq<Action>
    requires Checked(c, cfg, u).Content?
  {
    Saving(Opening(w, u), w, |Writes(c, cfg, u, Checked(c, cfg, u).key)|) + [Commit(w)] + [Leave(w)]
  }

  /** The lock is free, the writer idle, and the configuration lets the change through. */
  predicate Ready(c: Crypto, s: State, w: nat, u: Update)
  {
    At(s, w).Idle? && s.lock.Free? && s.config.Whole? && Checked(c, s.config.config, u).Content?
  }

  /** A run of any step function. */
  function Fold(step: (State, Action) -> State, s: State, actions: seq<Action>): State
  {
    if actions == [] then s else step(Fold(step, s, actions[..|actions| - 1]), actions[|actions| - 1])
  }

  lemma {:induction false} RunIsFold(c: Crypto, s: State, actions: seq<Action>)
    ensures Run(c, s, actions) == Fold((t, a) => Step(c, t, a), s, actions)
  {
    if actions != [] {
      RunIsFold(c, s, actions[..|actions| - 1]);
    }
  }

  lemma FoldOneMore(step: (State, Action) -> State, s: State, actions: seq<Action>, a: Action)
    ensures Fold(step, s, actions + [a]) == step(Fold(step, s, actions), a)
  {
    assert (actions + [a])[..|actions|] == actions;
  }

  /** The state with `done` fields saved. */
  function Midway(s: State, w: nat, u: Update, cfg: Config, writes: seq<(Field, string)>, done: nat): State
    requires done <= |writes|
  {
    var memory := WriteAll(cfg, writes[..done]);
    Put(s, w, Writing(u, memory, writes, done, Whole(memory))).(lock := HeldBy(w))
  }

  function WithLock(s: State, w: nat, me: Writer): State
  {
    Put(s, w, me).(lock := HeldBy(w))
  }

  lemma OpeningSteps(c: Crypto, s: State, w: nat, u: Update)
    requires Ready(c, s, w, u)
    ensures var cfg := s.config.config;
            var loaded := WithLock(s, w, Loaded(u, Checked(c, cfg, u).key));
            && Step(c, s, Acquire(w, u)) == WithLock(s, w, Locked(u))
            && Step(c, WithLock(s, w, Locked(u)), Load(w)) == loaded
            && Step(c, loaded, Stage(w)) == Midway(s, w, u, cfg, Writes(c, cfg, u, Checked(c, cfg, u).key), 0)
  {
    var cfg := s.config.config;
    var me := Loaded(u, Checked(c, cfg, u).key);
    assert s.writers[w := Locked(u)][w := me] == s.writers[w := me];
    assert WriteAll(cfg, []) == cfg;
    var first := Midway(s, w, u, cfg, Writes(c, cfg, u, Checked(c, cfg, u).key), 0);
    assert s.writers[w := me][w := first.writers[w]] == first.writers;
  }

  lemma SaveStep(c: Crypto, s: State, w: nat, u: Update, cfg: Config, writes: seq<(Field, string)>, done: nat)
    requires done < |writes|
    ensures Step(c, Midway(s, w, u, cfg, writes, done), Save(w)) == Midway(s, w, u, cfg, writes, done + 1)
  {
    assert writes[..done + 1][..done] == writes[..done];
    assert WriteAll(cfg, writes[..done + 1])
        == WriteAll(cfg, writes[..done])[writes[done].0 := writes[done].1];
  }

  function Committed(s: State, w: nat, u: Update, cfg: Config, writes: seq<(Field, string)>): State
  {
    WithLock(s, w, Finished).(config := Whole(WriteAll(cfg, writes)), log := s.log + [u])
  }

  lemma ClosingSteps(c: Crypto, s: State, w: nat, u: Update, cfg: Config, writes: seq<(Field, string)>)
    ensures var committed := Committed(s, w, u, cfg, writes);
            && Step(c, Midway(s, w, u, cfg, writes, |writes|), Commit(w)) == committed
            && Step(c, committed, Leave(w)) == Put(committed, w, Idle).(lock := Free)
  {
    assert writes[..|writes|] == writes;
  }

  predicate SavesOne(step: (State, Action) -> State, s: State, w: nat, u: Update, cfg: Config,
                     writes: seq<(Field, string)>, done: nat)
    requires done < |writes|
  {
    step(Midway(s, w, u, cfg, writes, done), Save(w)) == Midway(s, w, u, cfg, writes, done + 1)
  }

  lemma {:induction false} Saved(step: (State, Action) -> State, s: State, w: nat, u: Update, cfg: Config,
                                 writes: seq<(Field, string)>, before: seq<Action>, saves: nat)
    requires saves <= |writes| && Fold(step, s, before) == Midway(s, w, u, cfg, writes, 0)
    requires forall k | 0 <= k < |writes| :: SavesOne(step, s, w, u, cfg, writes, k)
    ensures Fold(step, s, Saving(before, w, saves)) == Midway(s, w, u, cfg, writes, saves)
  {
    if saves > 0 {
      Saved(step, s, w, u, cfg, writes, before, saves - 1);
      FoldOneMore(step, s, Saving(before, w, saves - 1), Save(w));
      assert SavesOne(step, s, w, u, cfg, writes, saves - 1);
    }
  }

  lemma Opened(step: (State, Action) -> State, s: State, w: nat, u: Update, one: State, two: State, three: State)
    requires step(s, Acquire(w, u)) == one && step(one, Load(w)) == two && step(two, Stage(w)) == three
    ensures Fold(step, s, Opening(w, u)) == three
  {
    assert [Acquire(w, u)] == [] + [Acquire(w, u)];
    FoldOneMore(step, s, [], Acquire(w, u));
    FoldOneMore(step, s, [Acquire(w, u)], Load(w));
    FoldOneMore(step, s, [Acquire(w, u)] + [Load(w)], Stage(w));
  }

  lemma Closed(step: (State, Action) -> State, s: State, w: nat, actions: seq<Action>, one: State, two: State)
    requires step(Fold(step, s, actions), Commit(w)) == one && step(one, Leave(w)) == two
    ensures Fold(step, s, actions + [Commit(w)] + [Leave(w)]) == two
  {
    FoldOneMore(step, s, actions, Commit(w));
    FoldOneMore(step, s, actions + [Commit(w)], Leave(w));
  }

  /** They replace the configuration by the whole new record and are in the log. */
  lemma Changed(c: Crypto, s: State, w: nat, u: Update)
    requires Ready(c, s, w, u)
    ensures var t := Run(c, s, Changing(c, s.config.config, w, u));
            t.config == Whole(Apply(c, s.config.config, u)) && t.log == s.log + [u] && t.lock == Free
  {
    var cfg := s.config.config;
    var key := Checked(c, cfg, u).key;
    var writes := Writes(c, cfg, u, key);
    var committed := Committed(s, w, u, cfg, writes);
    OpeningSteps(c, s, w, u);
    ClosingSteps(c, s, w, u, cfg, writes);
    var step := (t, a) => Step(c, t, a);
    forall k | 0 <= k < |writes| ensures SavesOne(step, s, w, u, cfg, writes, k) {
      SaveStep(c, s, w, u, cfg, writes, k);
    }
    ChangedBy(c, step, s, w, u, writes);
    RunIsFold(c, s, Changing(c, cfg, w, u));
  }

  lemma ChangedBy(c: Crypto, step: (State, Action) -> State, s: State, w: nat, u: Update, writes: seq<(Field, string)>)
    requires Ready(c, s, w, u) && writes == Writes(c, s.config.config, u, Checked(c, s.config.config, u).key)
    requires step(s, Acquire(w, u)) == WithLock(s, w, Locked(u))
    requires var loaded := WithLock(s, w, Loaded(u, Checked(c, s.config.config, u).key));
             && step(WithLock(s, w, Locked(u)), Load(w)) == loaded
             && step(loaded, Stage(w)) == Midway(s, w, u, s.config.config, writes, 0)
    requires forall k | 0 <= k < |writes| :: SavesOne(step, s, w, u, s.config.config, writes, k)
    requires var committed := Committed(s, w, u, s.config.config, writes);
             && step(Midway(s, w, u, s.config.config, writes, |writes|), Commit(w)) == committed
             && step(committed, Leave(w)) == Put(committed, w, Idle).(lock := Free)
    ensures Fold(step, s, Changing(c, s.config.config, w, u))
         == Put(Committed(s, w, u, s.config.config, writes), w, Idle).(lock := Free)
  {
    var cfg := s.config.config;
    var committed := Committed(s, w, u, cfg, writes);
    Opened(step, s, w, u, WithLock(s, w, Locked(u)), WithLock(s, w, Loaded(u, Checked(c, cfg, u).key)),
           Midway(s, w, u, cfg, writes, 0));
    Saved(step, s, w, u, cfg, writes, Opening(w, u), |writes|);
    Closed(step, s, w, Saving(Opening(w, u), w, |writes|), committed, Put(committed, w, Idle).(lock := Free));
  }

  /** From every state with this configuration, an undisturbed writer of the machine
      commits just this change and leaves that configuration. */
  ghost predicate Replaces(c: Crypto, u: Update, before: File, after: File)
  {
    forall s: State, w: nat | s.config == before && Ready(c, s, w, u) ::
      var t := Run(c, s, Changing(c, s.config.config, w, u));
      t.config == after && t.log == s.log + [u] && t.lock == Free
  }

  lemma ChangeReplaces(c: Crypto, u: Update, cfg: Config)
    ensures Replaces(c, u, Whole(cfg), Whole(Apply(c, cfg, u)))
  {
    forall s: State, w: nat | s.config == Whole(cfg) && Ready(c, s, w, u)
      ensures var t := Run(c, s, Changing(c, s.config.config, w, u));
              t.config == Whole(Apply(c, cfg, u)) && t.log == s.log + [u] && t.lock == Free
    {
      Changed(c, s, w, u);
    }
  }
}
