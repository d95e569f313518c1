/** Progress of the callers that create a signing key: whatever the others do, a caller that
    neither fails nor crashes finishes, and when it succeeds. */
module KeyProgress {
  import opened Base
  import opened KeyCreation

  // ---------- how far a caller has to go ----------

  /** An upper bound of the steps a caller still has to take. */
  function Rank(me: Caller): nat {
    match me
    case Start => KEY_LENGTH + 7
    case Creating(_) => KEY_LENGTH + 6
    case Writing(_, _, written) => if written <= KEY_LENGTH then 5 + KEY_LENGTH - written else 5
    case Linking(_, _) => 4
    case Opening(_) => 3
    case Reading(_, _) => 2
    case Removing(_, _) => 1
    case Done(_) => 0
    case Crashed => 0
  }

  /** The step that the caller's program takes next; a write takes at least one byte
      while there are bytes left. */
  predicate Proper(me: Caller, a: Action) {
    match me
    case Start => a.Check?
    case Creating(_) => a.CreateNew?
    case Writing(_, _, written) => a.WriteSome? && (a.n >= 1 || written >= KEY_LENGTH)
    case Linking(_, _) => a.Link?
    case Opening(_) => a.Open?
    case Reading(_, _) => a.Read?
    case Removing(_, _) => a.Remove?
    case Done(_) => false
    case Crashed => false
  }

  /** The caller is let run: no error and no crash of its own. */
  predicate Spares(actions: seq<Action>, c: nat) {
    forall i :: 0 <= i < |actions| ==> !(actions[i] == Fail(c) || actions[i] == Crash(c))
  }

  /** How many of the actions are proper steps of the caller. */
  ghost function OwnSteps(cfg: Config, s: State, actions: seq<Action>, c: nat): nat {
    if actions == [] then 0
    else
      var before, a := actions[..|actions| - 1], actions[|actions| - 1];
      var t := Run(cfg, s, before);
      OwnSteps(cfg, s, before, c) + (if a.c == c && c < |t.callers| && Proper(t.callers[c], a) then 1 else 0)
  }

  lemma StepLowersRank(cfg: Config, s: State, a: Action, c: nat)
    requires Invariant(cfg, s) && c < |s.callers| && a != Fail(c) && a != Crash(c)
    ensures var b := Step(cfg, s, a);
            && |b.callers| == |s.callers|
            && Rank(b.callers[c]) + (if a.c == c && Proper(s.callers[c], a) then 1 else 0) <= Rank(s.callers[c])
            && (s.callers[c] != Crashed ==> b.callers[c] != Crashed)
  {
    hide KeyIsNotOwned, OwnersDiffer;
    assert CallerOk(cfg, s, s.callers[c]);
    if a.c != c { StepInodes(cfg, s, a); }
  }

  /** Steps of others never set a caller back, and each of its own brings it nearer its end. */
  lemma {:induction false} OwnStepsLowerRank(cfg: Config, s: State, actions: seq<Action>, c: nat)
    requires TempsDiffer(cfg) && Initial(s) && c < |s.callers| && Spares(actions, c)
    ensures var b := Run(cfg, s, actions);
            && |b.callers| == |s.callers| && b.callers[c] != Crashed
            && OwnSteps(cfg, s, actions, c) + Rank(b.callers[c]) <= KEY_LENGTH + 7
  {
    hide Step, Invariant, Proper;
    if actions != [] {
      var before, a := actions[..|actions| - 1], actions[|actions| - 1];
      OwnStepsLowerRank(cfg, s, before, c);
      RunKeepsInvariant(cfg, s, before);
      StepLowersRank(cfg, Run(cfg, s, before), a, c);
    }
  }

  /** Progress: after at most 39 steps of its own a caller is done, whatever the others do
      before, between and after them. */
  lemma CallerFinishes(cfg: Config, s: State, actions: seq<Action>, c: nat)
    requires TempsDiffer(cfg) && Initial(s) && c < |s.callers| && Spares(actions, c)
    requires OwnSteps(cfg, s, actions, c) >= KEY_LENGTH + 7
    ensures |Run(cfg, s, actions).callers| == |s.callers| && Run(cfg, s, actions).callers[c].Done?
  {
    hide Run, OwnSteps;
    OwnStepsLowerRank(cfg, s, actions, c);
  }

  /** Nobody can keep a caller waiting: until it is done it has a step to take. */
  lemma AlwaysAStep(cfg: Config, s: State, c: nat, bytes: Key)
    requires Invariant(cfg, s) && c < |s.callers| && !s.callers[c].Done? && s.callers[c] != Crashed
    ensures exists a: Action :: a.c == c && Proper(s.callers[c], a) && a != Fail(c) && a != Crash(c)
                        && |Step(cfg, s, a).callers| == |s.callers|
                        && Rank(Step(cfg, s, a).callers[c]) < Rank(s.callers[c])
  {
    hide Invariant, Step;
    var a := match s.callers[c]
      case Start => Check(c, bytes)
      case Creating(_) => CreateNew(c)
      case Writing(_, _, _) => WriteSome(c, 1)
      case Linking(_, _) => Link(c)
      case Opening(_) => Open(c)
      case Reading(_, _) => Read(c)
      case _ => Remove(c);
    StepLowersRank(cfg, s, a, c);
  }

  // ---------- when a caller succeeds ----------

  /** There is no key yet, or a whole one. */
  predicate KeyUsable(cfg: Config, fs: FileSystem) {
    cfg.path in fs.dir ==> fs.dir[cfg.path] < |fs.inodes| && |Content(fs, cfg.path)| == KEY_LENGTH
  }

  /** The caller is about to create its temporary file, and the name is taken. */
  predicate TakenAt(cfg: Config, s: State, a: Action, c: nat) {
    a == CreateNew(c) && c < |s.callers| && s.callers[c].Creating? && cfg.temp(s.callers[c].bytes) in s.fs.dir
  }

  ghost predicate TempTaken(cfg: Config, s: State, actions: seq<Action>, c: nat) {
    exists i :: 0 <= i < |actions| && TakenAt(cfg, Run(cfg, s, actions[..i]), actions[i], c)
  }

  predicate NoErrorYet(me: Caller) {
    match me
    case Removing(_, result) => result.Ok?
    case Done(result) => result.Ok?
    case _ => true
  }

  lemma StepKeepsKeyUsable(cfg: Config, s: State, a: Action)
    requires TempsDiffer(cfg) && Invariant(cfg, s) && KeyUsable(cfg, s.fs)
    ensures KeyUsable(cfg, Step(cfg, s, a).fs)
  {
    hide Step, Invariant;
    StepKeepsInvariant(cfg, s, a);
    if cfg.path !in s.fs.dir && cfg.path in Step(cfg, s, a).fs.dir { LinkedKeyIsComplete(cfg, s, a); }
  }

  lemma StepMakesNoError(cfg: Config, s: State, a: Action, c: nat)
    requires Invariant(cfg, s) && KeyUsable(cfg, s.fs) && c < |s.callers| && NoErrorYet(s.callers[c])
    requires a != Fail(c) && a != Crash(c) && !TakenAt(cfg, s, a, c)
    ensures |Step(cfg, s, a).callers| == |s.callers| && NoErrorYet(Step(cfg, s, a).callers[c])
  {
    hide KeyIsNotOwned, OwnersDiffer;
    assert CallerOk(cfg, s, s.callers[c]);
    if a.c != c { StepInodes(cfg, s, a); }
  }

  lemma {:induction false} NoErrorWithoutCause(cfg: Config, s: State, actions: seq<Action>, c: nat)
    requires TempsDiffer(cfg) && Initial(s) && c < |s.callers| && Spares(actions, c)
    requires KeyUsable(cfg, s.fs) && !TempTaken(cfg, s, actions, c)
    ensures var b := Run(cfg, s, actions);
            |b.callers| == |s.callers| && KeyUsable(cfg, b.fs) && NoErrorYet(b.callers[c])
  {
    hide Step, Invariant, TakenAt, KeyUsable, NoErrorYet;
    if actions == [] {
      assert NoErrorYet(Start) by { StartHasNoError(); }
    } else {
      var before, a := actions[..|actions| - 1], actions[|actions| - 1];
      assert forall i :: 0 <= i < |before| ==> before[..i] == actions[..i];
      assert actions[..|before|] == before && !TakenAt(cfg, Run(cfg, s, before), a, c);
      NoErrorWithoutCause(cfg, s, before, c);
      RunKeepsInvariant(cfg, s, before);
      StepKeepsKeyUsable(cfg, Run(cfg, s, before), a);
      StepMakesNoError(cfg, Run(cfg, s, before), a, c);
    }
  }

  lemma StartHasNoError()
    ensures NoErrorYet(Start)
  {
  }

  lemma TakenMeansError(cfg: Config, s: State, a: Action, c: nat)
    requires TakenAt(cfg, s, a, c)
    ensures |Step(cfg, s, a).callers| == |s.callers| && Step(cfg, s, a).callers[c] == Done(Err(Io))
  {
  }

  lemma DoneStaysDone(cfg: Config, s: State, a: Action, c: nat)
    requires c < |s.callers| && s.callers[c].Done?
    ensures |Step(cfg, s, a).callers| == |s.callers| && Step(cfg, s, a).callers[c] == s.callers[c]
  {
    if a.c != c { StepInodes(cfg, s, a); }
  }

  lemma {:induction false} ErrorStays(cfg: Config, s: State, actions: seq<Action>, c: nat)
    requires TempTaken(cfg, s, actions, c)
    ensures var b := Run(cfg, s, actions); c < |b.callers| && b.callers[c] == Done(Err(Io))
  {
    hide Step, TakenAt;
    var before, a := actions[..|actions| - 1], actions[|actions| - 1];
    var i :| 0 <= i < |actions| && TakenAt(cfg, Run(cfg, s, actions[..i]), actions[i], c);
    if i == |before| {
      assert c < |Run(cfg, s, before).callers| by { TakenByCaller(cfg, Run(cfg, s, before), a, c); }
      TakenMeansError(cfg, Run(cfg, s, before), a, c);
    } else {
      assert before[..i] == actions[..i] && before[i] == actions[i];
      ErrorStays(cfg, s, before, c);
      DoneStaysDone(cfg, Run(cfg, s, before), a, c);
    }
  }

  lemma TakenByCaller(cfg: Config, s: State, a: Action, c: nat)
    requires TakenAt(cfg, s, a, c)
    ensures c < |s.callers|
  {
  }

  /** A caller that was let run to its end has a key exactly when the key path was empty or
      held a whole key at the start and its temporary name was free when it needed it. */
  lemma CallerSucceedsExactly(cfg: Config, s: State, actions: seq<Action>, c: nat)
    requires TempsDiffer(cfg) && Initial(s) && c < |s.callers| && Spares(actions, c)
    requires |Run(cfg, s, actions).callers| == |s.callers| && Run(cfg, s, actions).callers[c].Done?
    ensures Run(cfg, s, actions).callers[c].result.Ok? <==>
            KeyUsable(cfg, s.fs) && !TempTaken(cfg, s, actions, c)
  {
    hide Step, Invariant, TempTaken;
    var b := Run(cfg, s, actions);
    if TempTaken(cfg, s, actions, c) {
      ErrorStays(cfg, s, actions, c);
    } else if KeyUsable(cfg, s.fs) {
      NoErrorWithoutCause(cfg, s, actions, c);
    } else if b.callers[c].result.Ok? {
      UnusableKeyStays(cfg, s, actions, c);
    }
  }

  lemma UnusableKeyStays(cfg: Config, s: State, actions: seq<Action>, c: nat)
    requires TempsDiffer(cfg) && Initial(s) && cfg.path in s.fs.dir
    requires c < |Run(cfg, s, actions).callers| && Run(cfg, s, actions).callers[c].Done?
    requires Run(cfg, s, actions).callers[c].result.Ok?
    ensures KeyUsable(cfg, s.fs)
  {
    hide Step;
    assert actions[..0] == [];
    KeyNeverChanges(cfg, s, actions, 0);
    SuccessfulCallersAgree(cfg, s, actions, c, Run(cfg, s, actions).callers[c].result.value);
  }

  // ---------- no file is left behind ----------

  /** The caller has finished a temporary file and not yet removed it. */
  predicate OwesRemoval(me: Caller, key: Key) {
    match me
    case Linking(bytes, _) => bytes == key
    case Opening(cleanup) => cleanup == Some(key)
    case Reading(_, cleanup) => cleanup == Some(key)
    case Removing(temp, _) => temp == key
    case _ => false
  }

  /** Whatever happens on the way, linking and reading included, a caller that has finished its
      temporary file goes on to remove it; only a crash or a failed removal prevents that. */
  lemma FinishedFilesAreRemoved(cfg: Config, s: State, a: Action, c: nat, key: Key)
    requires c < |s.callers| && OwesRemoval(s.callers[c], key)
    ensures var b := Step(cfg, s, a);
            && |b.callers| == |s.callers|
            && (|| OwesRemoval(b.callers[c], key)
                || (a == Remove(c) && cfg.temp(key) !in b.fs.dir && b.callers[c] == Done(s.callers[c].result))
                || a == Crash(c)
                || (a == Fail(c) && s.callers[c].Removing?))
  {
    if a.c != c { StepInodes(cfg, s, a); }
  }
}
