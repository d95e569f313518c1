/** The lock-free creation of a signing key: a private temporary file is written in full and
    then hard-linked to the key path, which is an atomic create-if-absent. Files are inodes
    that names refer to; any number of callers run, fail and crash at any point. */
module KeyCreation {
  import opened Base

  const KEY_LENGTH := 32

  type Key = s: Bytes | |s| == KEY_LENGTH witness seq(KEY_LENGTH, _ => 0 as byte)

  type Name = Bytes

  /** `path` is the key path and `temp` the temporary name derived from the random bytes;
      it ends in ".tmp" and is never the key path. */
  datatype Config = Config(path: Name, temp: Key -> Name)

  ghost predicate TempsDiffer(cfg: Config) {
    forall key: Key :: cfg.temp(key) != cfg.path
  }

  datatype KeyError = InvalidKey | Io

  datatype FileSystem = FileSystem(dir: map<Name, nat>, inodes: seq<Bytes>)

  predicate WellFormed(fs: FileSystem) {
    forall n :: n in fs.dir ==> fs.dir[n] < |fs.inodes|
  }

  function Content(fs: FileSystem, n: Name): Bytes
    requires n in fs.dir && fs.dir[n] < |fs.inodes|
  {
    fs.inodes[fs.dir[n]]
  }

  /** Where a caller is. `Creating` has found no key; `Writing` owns an inode and has written
      a part of its bytes; `Linking` has written them all; `Opening` reads the key. */
  datatype Caller =
    | Start
    | Creating(bytes: Key)
    | Writing(bytes: Key, inode: nat, written: nat)
    | Linking(bytes: Key, inode: nat)
    | Opening(cleanup: Option<Key>)
    | Reading(from: nat, cleanup: Option<Key>)
    | Removing(temp: Key, result: Result<Key, KeyError>)
    | Done(result: Result<Key, KeyError>)
    | Crashed

  datatype State = State(fs: FileSystem, callers: seq<Caller>)

  datatype Action =
    | Check(c: nat, bytes: Key)
    | CreateNew(c: nat)
    | WriteSome(c: nat, n: nat)
    | Link(c: nat)
    | Open(c: nat)
    | Read(c: nat)
    | Remove(c: nat)
    | Fail(c: nat)
    | Crash(c: nat)

  /** After reading: go on to remove the temporary file, if there is one. */
  function Finish(cleanup: Option<Key>, result: Result<Key, KeyError>): Caller {
    match cleanup
    case Some(temp) => Removing(temp, result)
    case None => Done(result)
  }

  function Parse(content: Bytes): Result<Key, KeyError> {
    if |content| == KEY_LENGTH then Ok(content) else Err(InvalidKey)
  }

  function Min(a: nat, b: nat): nat { if a < b then a else b }

  function Become(s: State, fs: FileSystem, c: nat, caller: Caller): State
    requires c < |s.callers|
  {
    State(fs, s.callers[c := caller])
  }

  function Step(cfg: Config, s: State, a: Action): State {
    if a.c >= |s.callers| then s
    else
      var fs, me := s.fs, s.callers[a.c];
      match (a, me)
      case (Check(c, bytes), Start) =>
        Become(s, fs, c, if cfg.path in fs.dir then Opening(None) else Creating(bytes))
      case (CreateNew(c), Creating(bytes)) =>
        var temp := cfg.temp(bytes);
        if temp in fs.dir then Become(s, fs, c, Done(Err(Io)))
        else
          var inode := |fs.inodes|;
          Become(s, FileSystem(fs.dir[temp := inode], fs.inodes + [[]]), c, Writing(bytes, inode, 0))
      case (WriteSome(c, n), Writing(bytes, inode, written)) =>
        if inode >= |fs.inodes| || written > KEY_LENGTH then s
        else if written == KEY_LENGTH then Become(s, fs, c, Linking(bytes, inode))
        else
          var now := Min(written + n, KEY_LENGTH);
          var inodes := fs.inodes[inode := fs.inodes[inode] + bytes[written..now]];
          Become(s, fs.(inodes := inodes), c, Writing(bytes, inode, now))
      case (Link(c), Linking(bytes, inode)) =>
        if inode >= |fs.inodes| then s
        else if cfg.path in fs.dir then Become(s, fs, c, Opening(Some(bytes)))
        else Become(s, fs.(dir := fs.dir[cfg.path := inode]), c, Removing(bytes, Ok(bytes)))
      case (Open(c), Opening(cleanup)) =>
        if cfg.path in fs.dir then Become(s, fs, c, Reading(fs.dir[cfg.path], cleanup))
        else Become(s, fs, c, Finish(cleanup, Err(Io)))
      case (Read(c), Reading(inode, cleanup)) =>
        if inode >= |fs.inodes| then s
        else Become(s, fs, c, Finish(cleanup, Parse(fs.inodes[inode])))
      case (Remove(c), Removing(bytes, result)) =>
        Become(s, fs.(dir := fs.dir - {cfg.temp(bytes)}), c, Done(result))
      // Any I/O error: before the temporary file is complete the caller gives up at once,
      // later it still removes the file, and a failed removal is ignored.
      case (Fail(c), Start) => Become(s, fs, c, Done(Err(Io)))
      case (Fail(c), Creating(_)) => Become(s, fs, c, Done(Err(Io)))
      case (Fail(c), Writing(_, _, _)) => Become(s, fs, c, Done(Err(Io)))
      case (Fail(c), Linking(bytes, _)) => Become(s, fs, c, Removing(bytes, Err(Io)))
      case (Fail(c), Opening(cleanup)) => Become(s, fs, c, Finish(cleanup, Err(Io)))
      case (Fail(c), Reading(_, cleanup)) => Become(s, fs, c, Finish(cleanup, Err(Io)))
      case (Fail(c), Removing(_, result)) => Become(s, fs, c, Done(result))
      case (Crash(c), _) => if me.Done? then s else Become(s, fs, c, Crashed)
      case _ => s
  }

  ghost function Run(cfg: Config, s: State, actions: seq<Action>): State {
    if actions == [] then s
    else Step(cfg, Run(cfg, s, actions[..|actions| - 1]), actions[|actions| - 1])
  }

  predicate Initial(s: State) {
    WellFormed(s.fs) && forall c :: 0 <= c < |s.callers| ==> s.callers[c] == Start
  }

  // ---------- the invariant ----------

  /** The inode a caller may still write to, which no other name or caller shares. */
  predicate Owns(s: State, c: nat, inode: nat) {
    c < |s.callers| && s.callers[c].Writing? && s.callers[c].inode == inode
  }

  ghost predicate KeyIsNotOwned(cfg: Config, s: State) {
    cfg.path in s.fs.dir ==> forall c: nat :: !Owns(s, c, s.fs.dir[cfg.path])
  }

  ghost predicate OwnersDiffer(s: State) {
    forall b: nat, c: nat, i: nat :: Owns(s, b, i) && Owns(s, c, i) ==> b == c
  }

  ghost predicate Holds(s: State, key: Key, inode: nat) {
    inode < |s.fs.inodes| && s.fs.inodes[inode] == key && forall c: nat :: !Owns(s, c, inode)
  }

  ghost predicate KeyIs(cfg: Config, s: State, key: Key) {
    cfg.path in s.fs.dir && s.fs.dir[cfg.path] < |s.fs.inodes| && Content(s.fs, cfg.path) == key
  }

  ghost predicate CallerOk(cfg: Config, s: State, me: Caller) {
    match me
    case Writing(bytes, inode, written) =>
      && inode < |s.fs.inodes| && written <= KEY_LENGTH && s.fs.inodes[inode] == bytes[..written]
    case Linking(bytes, inode) => Holds(s, bytes, inode)
    case Reading(inode, _) => cfg.path in s.fs.dir && s.fs.dir[cfg.path] == inode
    case Opening(_) => cfg.path in s.fs.dir
    case Removing(_, Ok(key)) => KeyIs(cfg, s, key)
    case Done(Ok(key)) => KeyIs(cfg, s, key)
    case _ => true
  }

  ghost predicate CallersOk(cfg: Config, s: State) {
    forall c :: 0 <= c < |s.callers| ==> CallerOk(cfg, s, s.callers[c])
  }

  ghost predicate Invariant(cfg: Config, s: State) {
    WellFormed(s.fs) && KeyIsNotOwned(cfg, s) && OwnersDiffer(s) && CallersOk(cfg, s)
  }

  /** A key, once there, stays as it is. */
  ghost predicate KeyStays(cfg: Config, a: State, b: State) {
    cfg.path in a.fs.dir ==>
      && cfg.path in b.fs.dir && b.fs.dir[cfg.path] == a.fs.dir[cfg.path]
      && (a.fs.dir[cfg.path] < |a.fs.inodes| ==>
            b.fs.dir[cfg.path] < |b.fs.inodes| && Content(b.fs, cfg.path) == Content(a.fs, cfg.path))
  }

  /** Inodes that nobody may write keep their content. */
  ghost predicate QuietInodesStay(a: State, b: State) {
    |a.fs.inodes| <= |b.fs.inodes| &&
    forall i :: 0 <= i < |a.fs.inodes| && (forall c: nat :: !Owns(a, c, i)) ==>
      b.fs.inodes[i] == a.fs.inodes[i] && forall c: nat :: !Owns(b, c, i)
  }

  // ---------- one step ----------

  /** Inodes are written by their owner only, and only a fresh inode gets a new owner. */
  lemma StepInodes(cfg: Config, s: State, a: Action)
    ensures var b := Step(cfg, s, a);
            && |s.fs.inodes| <= |b.fs.inodes| && |b.callers| == |s.callers|
            && (forall i :: 0 <= i < |s.fs.inodes| ==> b.fs.inodes[i] == s.fs.inodes[i] || Owns(s, a.c, i))
            && (forall c: nat, i: nat :: Owns(b, c, i) ==>
                  Owns(s, c, i) || (c == a.c && i == |s.fs.inodes| < |b.fs.inodes|))
            && (forall c :: 0 <= c < |s.callers| && c != a.c ==> b.callers[c] == s.callers[c])
  {
  }

  lemma StepKeepsOwners(cfg: Config, s: State, a: Action)
    requires Invariant(cfg, s)
    ensures OwnersDiffer(Step(cfg, s, a)) && QuietInodesStay(s, Step(cfg, s, a))
  {
    hide Step;
    StepInodes(cfg, s, a);
    OwnedInodesExist(cfg, s);
  }

  lemma OwnedInodesExist(cfg: Config, s: State)
    requires CallersOk(cfg, s)
    ensures forall c: nat, i: nat :: Owns(s, c, i) ==> i < |s.fs.inodes|
  {
    forall c: nat, i: nat | Owns(s, c, i) ensures i < |s.fs.inodes| { assert CallerOk(cfg, s, s.callers[c]); }
  }

  /** The key path is never unlinked or relinked; a caller links it to a complete file. */
  lemma StepKeyPath(cfg: Config, s: State, a: Action)
    requires TempsDiffer(cfg) && WellFormed(s.fs)
    ensures var b := Step(cfg, s, a);
            && WellFormed(b.fs)
            && (cfg.path in s.fs.dir ==> cfg.path in b.fs.dir && b.fs.dir[cfg.path] == s.fs.dir[cfg.path])
            && (cfg.path in b.fs.dir && cfg.path !in s.fs.dir ==>
                  a.c < |s.callers| && s.callers[a.c].Linking? && b.fs.dir[cfg.path] == s.callers[a.c].inode)
  {
  }

  lemma StepKeepsKey(cfg: Config, s: State, a: Action)
    requires TempsDiffer(cfg) && Invariant(cfg, s)
    ensures KeyStays(cfg, s, Step(cfg, s, a)) && KeyIsNotOwned(cfg, Step(cfg, s, a))
  {
    hide Step, Owns;
    StepKeyPath(cfg, s, a);
    StepKeepsOwners(cfg, s, a);
    var b := Step(cfg, s, a);
    if cfg.path in b.fs.dir && cfg.path !in s.fs.dir {
      assert CallerOk(cfg, s, s.callers[a.c]);
    }
  }

  /** What another caller relies on is not disturbed. */
  lemma OtherCallerStays(cfg: Config, s: State, a: Action, c: nat)
    requires Invariant(cfg, s) && c < |s.callers| && c != a.c
    requires KeyStays(cfg, s, Step(cfg, s, a)) && QuietInodesStay(s, Step(cfg, s, a))
    ensures CallerOk(cfg, Step(cfg, s, a), s.callers[c])
  {
    hide Step;
    var me := s.callers[c];
    StepInodes(cfg, s, a);
    assert CallerOk(cfg, s, me);
    if me.Writing? { assert Owns(s, c, me.inode); }
  }

  lemma ActorStays(cfg: Config, s: State, a: Action)
    requires TempsDiffer(cfg) && Invariant(cfg, s) && a.c < |s.callers|
    requires KeyStays(cfg, s, Step(cfg, s, a)) && QuietInodesStay(s, Step(cfg, s, a))
    ensures CallerOk(cfg, Step(cfg, s, a), Step(cfg, s, a).callers[a.c])
  {
    hide OwnersDiffer, QuietInodesStay;
    assert CallerOk(cfg, s, s.callers[a.c]);
    if a.WriteSome? && s.callers[a.c].Writing? { WriteKeepsPrefix(cfg, s, a.c, a.n); }
  }

  lemma WriteKeepsPrefix(cfg: Config, s: State, c: nat, n: nat)
    requires Invariant(cfg, s) && c < |s.callers| && s.callers[c].Writing?
    ensures CallerOk(cfg, Step(cfg, s, WriteSome(c, n)), Step(cfg, s, WriteSome(c, n)).callers[c])
  {
    var me := s.callers[c];
    assert CallerOk(cfg, s, me);
    if me.written < KEY_LENGTH {
      var now := Min(me.written + n, KEY_LENGTH);
      assert me.bytes[..me.written] + me.bytes[me.written..now] == me.bytes[..now];
    } else {
      var b := Step(cfg, s, WriteSome(c, n));
      assert me.bytes[..me.written] == me.bytes && Owns(s, c, me.inode);
      forall o: nat ensures !Owns(b, o, me.inode) {
        if Owns(b, o, me.inode) { assert Owns(s, o, me.inode); }
      }
    }
  }

  lemma StepKeepsInvariant(cfg: Config, s: State, a: Action)
    requires TempsDiffer(cfg) && Invariant(cfg, s)
    ensures Invariant(cfg, Step(cfg, s, a)) && KeyStays(cfg, s, Step(cfg, s, a))
  {
    hide Step, KeyIsNotOwned, OwnersDiffer, KeyStays, CallerOk, QuietInodesStay;
    var b := Step(cfg, s, a);
    StepKeyPath(cfg, s, a);
    StepKeepsOwners(cfg, s, a);
    StepKeepsKey(cfg, s, a);
    StepInodes(cfg, s, a);
    forall c | 0 <= c < |b.callers| ensures CallerOk(cfg, b, b.callers[c]) {
      if c == a.c { ActorStays(cfg, s, a); } else { OtherCallerStays(cfg, s, a, c); }
    }
  }

  // ---------- runs ----------

  lemma {:induction false} RunKeepsInvariant(cfg: Config, s: State, actions: seq<Action>)
    requires TempsDiffer(cfg) && Initial(s)
    ensures Invariant(cfg, Run(cfg, s, actions))
  {
    hide Invariant, Step;
    if actions == [] {
      assert Invariant(cfg, s) by { StartIsGood(cfg, s); }
    } else {
      var before := actions[..|actions| - 1];
      RunKeepsInvariant(cfg, s, before);
      StepKeepsInvariant(cfg, Run(cfg, s, before), actions[|actions| - 1]);
    }
  }

  lemma StartIsGood(cfg: Config, s: State)
    requires Initial(s)
    ensures Invariant(cfg, s)
  {
  }

  /** The key path, once it exists, holds the same bytes for ever. */
  lemma {:induction false} KeyNeverChanges(cfg: Config, s: State, actions: seq<Action>, i: nat)
    requires TempsDiffer(cfg) && Initial(s) && i <= |actions|
    requires cfg.path in Run(cfg, s, actions[..i]).fs.dir
    ensures var then_, now := Run(cfg, s, actions[..i]).fs, Run(cfg, s, actions).fs;
            && WellFormed(then_) && WellFormed(now) && cfg.path in now.dir
            && Content(now, cfg.path) == Content(then_, cfg.path)
    decreases |actions|
  {
    hide Invariant, Step;
    RunKeepsInvariant(cfg, s, actions[..i]);
    InvariantIsWellFormed(cfg, Run(cfg, s, actions[..i]));
    if i == |actions| {
      assert actions[..i] == actions;
    } else {
      var before := actions[..|actions| - 1];
      assert before[..i] == actions[..i];
      KeyNeverChanges(cfg, s, before, i);
      RunKeepsInvariant(cfg, s, before);
      StepKeepsInvariant(cfg, Run(cfg, s, before), actions[|actions| - 1]);
      InvariantIsWellFormed(cfg, Run(cfg, s, actions));
    }
  }

  lemma InvariantIsWellFormed(cfg: Config, s: State)
    requires Invariant(cfg, s)
    ensures WellFormed(s.fs)
  {
  }

  /** Convergence: at any time, every caller that has succeeded returned exactly the bytes
      at the key path, so all of them returned the same key. */
  lemma SuccessfulCallersAgree(cfg: Config, s: State, actions: seq<Action>, c: nat, key: Key)
    requires TempsDiffer(cfg) && Initial(s)
    requires c < |Run(cfg, s, actions).callers| && Run(cfg, s, actions).callers[c] == Done(Ok(key))
    ensures var fs := Run(cfg, s, actions).fs;
            cfg.path in fs.dir && fs.dir[cfg.path] < |fs.inodes| && Content(fs, cfg.path) == key
  {
    hide Run;
    RunKeepsInvariant(cfg, s, actions);
    assert CallerOk(cfg, Run(cfg, s, actions), Run(cfg, s, actions).callers[c]);
  }

  // ---------- where a created key comes from ----------

  ghost predicate Drawn(actions: seq<Action>, key: Bytes) {
    exists i :: 0 <= i < |actions| && actions[i].Check? && actions[i].bytes == key
  }

  predicate Carries(me: Caller, key: Bytes) {
    match me
    case Creating(bytes) => bytes == key
    case Writing(bytes, _, _) => bytes == key
    case Linking(bytes, _) => bytes == key
    case _ => false
  }

  lemma StepCarries(cfg: Config, s: State, a: Action)
    ensures forall c, key :: 0 <= c < |Step(cfg, s, a).callers| && Carries(Step(cfg, s, a).callers[c], key) ==>
              (c < |s.callers| && Carries(s.callers[c], key)) || (a.Check? && a.bytes == key)
  {
  }

  lemma DrawnGrows(actions: seq<Action>, a: Action, key: Bytes)
    requires Drawn(actions, key) || (a.Check? && a.bytes == key)
    ensures Drawn(actions + [a], key)
  {
    var all := actions + [a];
    if Drawn(actions, key) {
      var i :| 0 <= i < |actions| && actions[i].Check? && actions[i].bytes == key;
      assert all[i] == actions[i];
    } else {
      assert all[|actions|] == a;
    }
  }

  /** A key path that did not exist at the start never holds anything but all 32 bytes that
      one of the callers drew. */
  lemma {:induction false} CreatedKeysAreComplete(cfg: Config, s: State, actions: seq<Action>)
    requires TempsDiffer(cfg) && Initial(s) && cfg.path !in s.fs.dir
    ensures var now := Run(cfg, s, actions);
            && (cfg.path in now.fs.dir ==>
                  && now.fs.dir[cfg.path] < |now.fs.inodes|
                  && |Content(now.fs, cfg.path)| == 32 && Drawn(actions, Content(now.fs, cfg.path)))
            && (forall c, key :: 0 <= c < |now.callers| && Carries(now.callers[c], key) ==> Drawn(actions, key))
  {
    hide Step, Drawn, Invariant;
    if actions != [] {
      var before, a := actions[..|actions| - 1], actions[|actions| - 1];
      var was, now := Run(cfg, s, before), Run(cfg, s, actions);
      CreatedKeysAreComplete(cfg, s, before);
      RunKeepsInvariant(cfg, s, before);
      StepKeepsInvariant(cfg, was, a);
      assert actions == before + [a];
      StepCarries(cfg, was, a);
      forall c, key | 0 <= c < |now.callers| && Carries(now.callers[c], key) ensures Drawn(actions, key) {
        DrawnGrows(before, a, key);
      }
      if cfg.path in was.fs.dir {
        DrawnGrows(before, a, Content(was.fs, cfg.path));
      } else if cfg.path in now.fs.dir {
        LinkedKeyIsComplete(cfg, was, a);
        DrawnGrows(before, a, Content(now.fs, cfg.path));
      }
    }
  }

  lemma LinkedKeyIsComplete(cfg: Config, s: State, a: Action)
    requires TempsDiffer(cfg) && Invariant(cfg, s) && cfg.path !in s.fs.dir && cfg.path in Step(cfg, s, a).fs.dir
    ensures var b := Step(cfg, s, a);
            && a.c < |s.callers| && s.callers[a.c].Linking? && b.fs.dir[cfg.path] < |b.fs.inodes|
            && Content(b.fs, cfg.path) == s.callers[a.c].bytes
  {
    hide Step;
    StepKeyPath(cfg, s, a);
    StepKeepsOwners(cfg, s, a);
    assert CallerOk(cfg, s, s.callers[a.c]);
  }

  // ---------- a caller that is left alone ----------

  /** One whole undisturbed call; the other callers may be anywhere. */
  lemma UndisturbedCallSucceeds(cfg: Config, s: State, c: nat, bytes: Key)
    requires TempsDiffer(cfg) && WellFormed(s.fs) && c < |s.callers| && s.callers[c] == Start
    ensures cfg.path in s.fs.dir ==>
              Step(cfg, Step(cfg, Step(cfg, s, Check(c, bytes)), Open(c)), Read(c)) ==
              State(s.fs, s.callers[c := Done(Parse(Content(s.fs, cfg.path)))])
    ensures cfg.path !in s.fs.dir && cfg.temp(bytes) !in s.fs.dir ==>
              var s2 := Step(cfg, Step(cfg, s, Check(c, bytes)), CreateNew(c));
              var s4 := Step(cfg, Step(cfg, s2, WriteSome(c, KEY_LENGTH)), WriteSome(c, 0));
              var after := Step(cfg, Step(cfg, s4, Link(c)), Remove(c));
              && after.callers == s.callers[c := Done(Ok(bytes))]
              && after.fs.inodes == s.fs.inodes + [bytes]
              && after.fs.dir == s.fs.dir[cfg.path := |s.fs.inodes|]
  {
    if cfg.path in s.fs.dir {
      UndisturbedRead(cfg, s, c, bytes);
    } else if cfg.temp(bytes) !in s.fs.dir {
      var n := |s.fs.inodes|;
      var fs4 := FileSystem(s.fs.dir[cfg.temp(bytes) := n], s.fs.inodes + [bytes]);
      UndisturbedWrite(cfg, s, c, bytes);
      UndisturbedLink(cfg, State(fs4, s.callers[c := Linking(bytes, n)]), c);
      hide Step;
      assert s.callers[c := Linking(bytes, n)][c := Done(Ok(bytes))] == s.callers[c := Done(Ok(bytes))];
      assert fs4.dir[cfg.path := n] - {cfg.temp(bytes)} == s.fs.dir[cfg.path := n];
    }
  }

  lemma UndisturbedRead(cfg: Config, s: State, c: nat, bytes: Key)
    requires WellFormed(s.fs) && c < |s.callers| && s.callers[c] == Start && cfg.path in s.fs.dir
    ensures Step(cfg, Step(cfg, Step(cfg, s, Check(c, bytes)), Open(c)), Read(c)) ==
            State(s.fs, s.callers[c := Done(Parse(Content(s.fs, cfg.path)))])
  {
  }

  /** A key file of any other length is told apart from a failure to read it. */
  lemma WrongLengthIsInvalid(cfg: Config, s: State, c: nat, bytes: Key)
    requires WellFormed(s.fs) && c < |s.callers| && s.callers[c] == Start && cfg.path in s.fs.dir
    requires |Content(s.fs, cfg.path)| != 32
    ensures Step(cfg, Step(cfg, Step(cfg, s, Check(c, bytes)), Open(c)), Read(c)) ==
            State(s.fs, s.callers[c := Done(Err(InvalidKey))])
  {
    hide Step;
    UndisturbedRead(cfg, s, c, bytes);
  }

  lemma UndisturbedWrite(cfg: Config, s: State, c: nat, bytes: Key)
    requires c < |s.callers| && s.callers[c] == Start && cfg.path !in s.fs.dir && cfg.temp(bytes) !in s.fs.dir
    ensures var s2 := Step(cfg, Step(cfg, s, Check(c, bytes)), CreateNew(c));
            Step(cfg, Step(cfg, s2, WriteSome(c, KEY_LENGTH)), WriteSome(c, 0)) ==
            State(FileSystem(s.fs.dir[cfg.temp(bytes) := |s.fs.inodes|], s.fs.inodes + [bytes]),
                  s.callers[c := Linking(bytes, |s.fs.inodes|)])
  {
    var n := |s.fs.inodes|;
    var s2 := Step(cfg, Step(cfg, s, Check(c, bytes)), CreateNew(c));
    assert s2.callers == s.callers[c := Writing(bytes, n, 0)];
    var s3 := Step(cfg, s2, WriteSome(c, KEY_LENGTH));
    assert bytes[0..KEY_LENGTH] == bytes && [] + bytes == bytes;
    assert s3.fs.inodes == s.fs.inodes + [bytes];
    assert s3.callers == s.callers[c := Writing(bytes, n, KEY_LENGTH)];
  }

  lemma UndisturbedLink(cfg: Config, s: State, c: nat)
    requires c < |s.callers| && s.callers[c].Linking? && s.callers[c].inode < |s.fs.inodes| && cfg.path !in s.fs.dir
    ensures var me := s.callers[c];
            Step(cfg, Step(cfg, s, Link(c)), Remove(c)) ==
            State(FileSystem(s.fs.dir[cfg.path := me.inode] - {cfg.temp(me.bytes)}, s.fs.inodes),
                  s.callers[c := Done(Ok(me.bytes))])
  {
  }

  // ---------- the call as one program ----------

  /** A file system used by one caller, and perhaps a rival that links its own finished key
      just before this caller does. `chunks` says how many bytes each write takes. */
  class Disk {
    var dir: map<Name, nat>
    var inodes: seq<Bytes>

    function Files(): FileSystem
      reads this
    {
      FileSystem(dir, inodes)
    }

    constructor (fs: FileSystem)
      ensures Files() == fs
    {
      dir, inodes := fs.dir, fs.inodes;
    }

    method ReadKey(path: Name) returns (r: Result<Key, KeyError>)
      requires WellFormed(Files())
      ensures r == if path in dir then Parse(Content(Files(), path)) else Err(Io)
    {
      if path !in dir { return Err(Io); }
      var content := inodes[dir[path]];
      if |content| != KEY_LENGTH { return Err(InvalidKey); }
      return Ok(content);
    }

    /** The loop inside `write_all`: every write takes at least one byte. */
    method WriteAll(inode: nat, bytes: Key, chunks: nat -> nat)
      requires inode < |inodes| && inodes[inode] == []
      modifies this`inodes
      ensures inodes == old(inodes)[inode := bytes]
    {
      var written := 0;
      while written < KEY_LENGTH
        invariant 0 <= written <= KEY_LENGTH
        invariant inodes == old(inodes)[inode := bytes[..written]]
      {
        var now := Min(written + 1 + chunks(written), KEY_LENGTH);
        assert bytes[..written] + bytes[written..now] == bytes[..now];
        inodes := inodes[inode := inodes[inode] + bytes[written..now]];
        written := now;
      }
      assert bytes[..written] == bytes;
    }

    method LinkRival(path: Name, rival: Key)
      modifies this
      ensures Files() == FileSystem(old(dir)[path := |old(inodes)|], old(inodes) + [rival])
    {
      dir, inodes := dir[path := |inodes|], inodes + [rival];
    }

    /** An existing key file is read and left alone; otherwise the first key linked is the
        answer, and the only name left behind is the key path. */
    method LoadOrCreate(cfg: Config, bytes: Key, chunks: nat -> nat, rival: Option<Key>)
      returns (r: Result<Key, KeyError>)
      requires TempsDiffer(cfg) && WellFormed(Files())
      modifies this
      ensures WellFormed(Files())
      ensures cfg.path in old(dir) ==> Files() == old(Files()) && r == Parse(Content(Files(), cfg.path))
      ensures cfg.path !in old(dir) && cfg.temp(bytes) in old(dir) ==> Files() == old(Files()) && r == Err(Io)
      ensures cfg.path !in old(dir) && cfg.temp(bytes) !in old(dir) ==>
                && cfg.path in dir && dir == old(dir)[cfg.path := dir[cfg.path]]
                && r == Ok(if rival.Some? then rival.value else bytes) && Content(Files(), cfg.path) == r.value
    {
      if cfg.path in dir {
        r := ReadKey(cfg.path);
        return;
      }
      var temp := cfg.temp(bytes);
      if temp in dir { return Err(Io); }
      var inode := |inodes|;
      dir, inodes := dir[temp := inode], inodes + [[]];
      WriteAll(inode, bytes, chunks);
      if rival.Some? { LinkRival(cfg.path, rival.value); }
      if cfg.path in dir {
        r := ReadKey(cfg.path);
      } else {
        dir := dir[cfg.path := inode];
        r := Ok(bytes);
      }
      dir := dir - {temp};
    }
  }
}
