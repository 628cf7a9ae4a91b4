// The store's own methods, one system call after another with anything the other processes do
// in between; and the symlinks that point into the store.
module CasStore {
  import opened Common
  import opened Cas

  // What happens around one operation: what the others do first, whether its system call
  // fails, and what an rmtree leaves.
  datatype Turn = Turn(meanwhile: seq<Action>, fault: bool, left: Option<Tree>)

  ghost predicate OfOthers(schedule: seq<Action>, c: nat) {
    forall a :: a in schedule ==> a.call != c
  }

  lemma {:induction false} OthersLeaveCall(hash: Hasher, s: State, schedule: seq<Action>, c: nat)
    requires c in s.calls && OfOthers(schedule, c)
    ensures c in Run(hash, s, schedule).calls && Run(hash, s, schedule).calls[c] == s.calls[c]
  {
    if schedule != [] {
      var init, last := schedule[..|schedule| - 1], schedule[|schedule| - 1];
      assert last in schedule && forall a :: a in init ==> a in schedule;
      OthersLeaveCall(hash, s, init, c);
      NextKeepsCall(hash, Run(hash, s, init), last, c);
    }
  }

  class CAStore {
    const hash: Hasher
    var state: State

    constructor (hash: Hasher, disk: Disk)
      ensures this.hash == hash && state == State(disk, map[])
    {
      this.hash := hash;
      state := State(disk, map[]);
    }

    /** Everything since `was` is one schedule, and call `c` stands as `k` says. */
    ghost predicate Reached(was: State, trace: seq<Action>, c: nat, k: Call)
      reads this
    {
      state == Run(hash, was, trace) && c in state.calls && state.calls[c] == k
    }

    // The others get their turn.
    method Wait(c: nat, turn: Turn, ghost was: State, ghost trace: seq<Action>) returns (ghost longer: seq<Action>)
      requires c in state.calls && Reached(was, trace, c, state.calls[c]) && OfOthers(turn.meanwhile, c)
      modifies this`state
      ensures longer == trace + turn.meanwhile && Reached(was, longer, c, old(state.calls[c]))
    {
      OthersLeaveCall(hash, state, turn.meanwhile, c);
      RunAppend(hash, was, trace, turn.meanwhile);
      state := Run(hash, state, turn.meanwhile);
      longer := trace + turn.meanwhile;
    }

    // The call has done one operation: this is the disk now, and this is where it stands.
    method Settle(c: nat, disk: Disk, k: Call, turn: Turn, ghost was: State, ghost trace: seq<Action>)
      returns (ghost longer: seq<Action>)
      requires c in state.calls && Reached(was, trace, c, state.calls[c])
      requires Advance(hash, state.disk, state.calls[c], turn.fault, turn.left) == (disk, k)
      modifies this`state
      ensures longer == trace + [Step(c, turn.fault, turn.left)] && Reached(was, longer, c, k) && state.disk == disk
    {
      Append1(hash, was, trace, Step(c, turn.fault, turn.left));
      state := State(disk, state.calls[c := k]);
      longer := trace + [Step(c, turn.fault, turn.left)];
    }

    /** admit() is the machine's call: from beginning to end it is one schedule of operations,
        its own and other calls', and it returns or raises as the call ended there. */
    method Admit(c: nat, src: Tree, identity: string, injected: Option<string>, turns: seq<Turn>)
      returns (r: Result<Path, AdmitError>, ghost trace: seq<Action>)
      requires c !in state.calls && |turns| == 6
      requires forall t :: t in turns ==> OfOthers(t.meanwhile, c)
      modifies this`state
      ensures state == Run(hash, old(state), trace)
      ensures |trace| > 0 && trace[0] == Start(c, src, identity, injected)
      ensures c in state.calls && state.calls[c].phase == Done(r)
      ensures state.calls[c].brought == src && state.calls[c].identity == identity
    {
      ghost var was := state;
      var k := Call(src, identity, injected, Some(src), Hashing);
      state := state.(calls := state.calls[c := k]);
      trace := [Start(c, src, identity, injected)];
      Append1(hash, was, [], trace[0]);
      assert [] + trace == trace;

      var actual := if injected.Some? then injected else hash(src);
      trace := Wait(c, turns[0], was, trace);
      if actual.None? {
        r := Err(HashFailed);
        trace := Settle(c, state.disk, k.(phase := Done(r)), turns[0], was, trace);
        return;
      }
      if actual.value != identity {
        r := Err(IdentityMismatch);
        trace := Settle(c, state.disk, k.(phase := Done(r)), turns[0], was, trace);
        return;
      }
      var path := PathFor(identity);
      if path.Err? {
        r := Err(BadIdentity(path.error));
        trace := Settle(c, state.disk, k.(phase := Done(r)), turns[0], was, trace);
        return;
      }
      var canonical := path.value;
      trace := Settle(c, state.disk, k.(phase := Checking(canonical)), turns[0], was, trace);
      r, trace := Seek(c, src, canonical, turns, was, trace);
    }

    // if canonical.is_dir(): fold back to it, and the rest.
    method Seek(c: nat, src: Tree, canonical: Path, turns: seq<Turn>, ghost was: State, ghost trace: seq<Action>)
      returns (r: Result<Path, AdmitError>, ghost longer: seq<Action>)
      requires |turns| == 6 && forall t :: t in turns ==> OfOthers(t.meanwhile, c)
      requires c in state.calls && Reached(was, trace, c, state.calls[c])
      requires state.calls[c].phase == Checking(canonical) && state.calls[c].scratch == Some(src)
      modifies this`state
      ensures trace <= longer && c in state.calls
      ensures Reached(was, longer, c, old(state.calls[c]).(scratch := state.calls[c].scratch, phase := Done(r)))
    {
      var k := state.calls[c];
      longer := Wait(c, turns[1], was, trace);
      if IsDir(state.disk, canonical) {
        longer := Settle(c, state.disk, k.(phase := Dropping(canonical)), turns[1], was, longer);
        r, longer := Drop(c, canonical, turns[5], was, longer);
        return;
      }
      longer := Settle(c, state.disk, k.(phase := Making(canonical)), turns[1], was, longer);
      r, longer := Place(c, src, canonical, turns, was, longer);
    }

    // canonical.parent.mkdir(parents=True, exist_ok=True), and the rest.
    method Place(c: nat, src: Tree, canonical: Path, turns: seq<Turn>, ghost was: State, ghost trace: seq<Action>)
      returns (r: Result<Path, AdmitError>, ghost longer: seq<Action>)
      requires |turns| == 6 && forall t :: t in turns ==> OfOthers(t.meanwhile, c)
      requires c in state.calls && Reached(was, trace, c, state.calls[c])
      requires state.calls[c].phase == Making(canonical) && state.calls[c].scratch == Some(src)
      modifies this`state
      ensures trace <= longer && c in state.calls
      ensures Reached(was, longer, c, old(state.calls[c]).(scratch := state.calls[c].scratch, phase := Done(r)))
    {
      var k := state.calls[c];
      longer := Wait(c, turns[2], was, trace);
      if turns[2].fault {
        r := Err(OsError);
        longer := Settle(c, state.disk, k.(phase := Done(r)), turns[2], was, longer);
        return;
      }
      var made := state.disk.(algorithms := state.disk.algorithms + {canonical.0});
      longer := Settle(c, made, k.(phase := Moving(canonical)), turns[2], was, longer);
      r, longer := Move(c, src, canonical, turns, was, longer);
    }

    // src.rename(canonical), or the fold-back of a lost race.
    method Move(c: nat, src: Tree, canonical: Path, turns: seq<Turn>, ghost was: State, ghost trace: seq<Action>)
      returns (r: Result<Path, AdmitError>, ghost longer: seq<Action>)
      requires |turns| == 6 && forall t :: t in turns ==> OfOthers(t.meanwhile, c)
      requires c in state.calls && Reached(was, trace, c, state.calls[c])
      requires state.calls[c].phase == Moving(canonical) && state.calls[c].scratch == Some(src)
      modifies this`state
      ensures trace <= longer && c in state.calls
      ensures Reached(was, longer, c, old(state.calls[c]).(scratch := state.calls[c].scratch, phase := Done(r)))
    {
      var k := state.calls[c];
      longer := Wait(c, turns[3], was, trace);
      if !turns[3].fault && CanRename(state.disk, Some(src), canonical) {
        r := Ok(canonical);
        var moved := state.disk.(root := state.disk.root[canonical := Dir(src)]);
        longer := Settle(c, moved, k.(scratch := None, phase := Done(r)), turns[3], was, longer);
        return;
      }
      longer := Settle(c, state.disk, k.(phase := Folding(canonical)), turns[3], was, longer);
      r, longer := Fold(c, src, canonical, turns, was, longer);
    }

    // The lost race: is the entry there now?
    method Fold(c: nat, src: Tree, canonical: Path, turns: seq<Turn>, ghost was: State, ghost trace: seq<Action>)
      returns (r: Result<Path, AdmitError>, ghost longer: seq<Action>)
      requires |turns| == 6 && forall t :: t in turns ==> OfOthers(t.meanwhile, c)
      requires c in state.calls && Reached(was, trace, c, state.calls[c])
      requires state.calls[c].phase == Folding(canonical) && state.calls[c].scratch == Some(src)
      modifies this`state
      ensures trace <= longer && c in state.calls
      ensures Reached(was, longer, c, old(state.calls[c]).(scratch := state.calls[c].scratch, phase := Done(r)))
    {
      var k := state.calls[c];
      longer := Wait(c, turns[4], was, trace);
      if !IsDir(state.disk, canonical) {
        r := Err(OsError);
        longer := Settle(c, state.disk, k.(phase := Done(r)), turns[4], was, longer);
        return;
      }
      longer := Settle(c, state.disk, k.(phase := Dropping(canonical)), turns[4], was, longer);
      r, longer := Drop(c, canonical, turns[5], was, longer);
    }

    // shutil.rmtree(src, ignore_errors=True); return canonical
    method Drop(c: nat, canonical: Path, turn: Turn, ghost was: State, ghost trace: seq<Action>)
      returns (r: Result<Path, AdmitError>, ghost longer: seq<Action>)
      requires c in state.calls && Reached(was, trace, c, state.calls[c]) && OfOthers(turn.meanwhile, c)
      requires state.calls[c].phase == Dropping(canonical)
      modifies this`state
      ensures r == Ok(canonical) && trace <= longer
      ensures var k := old(state.calls[c]);
              Reached(was, longer, c, k.(scratch := Rmtree(k.scratch, turn.left), phase := Done(r)))
    {
      r := Ok(canonical);
      longer := Wait(c, turn, was, trace);
      var k := state.calls[c];
      longer := Settle(c, state.disk, k.(scratch := Rmtree(k.scratch, turn.left), phase := Done(r)), turn, was, longer);
    }
  }

  // ---- Links --------------------------------------------------------------------------------

  // What is at a link target: a symlink into the store, or something else.
  datatype TargetNode = Symlink(to: Path) | Stale

  datatype LinkPhase = Looking | Clearing(to: Path) | Linking(to: Path) | Linked(to: Path) | NotInStore | Failed
  datatype LinkCall = LinkCall(identity: string, target: string, phase: LinkPhase)

  datatype Links = Links(store: State, targets: map<string, TargetNode>, calls: map<nat, LinkCall>)

  // An admission goes on, a link() call begins, or one does its next operation.
  datatype LinkAction = Admission(action: Action) | Begin(call: nat, identity: string, target: string) | Do(call: nat, fault: bool)

  function LinkNext(hash: Hasher, s: Links, a: LinkAction): Links {
    match a
    case Admission(action) => s.(store := Next(hash, s.store, action))
    case Begin(c, identity, target) =>
      if c in s.calls then s else s.(calls := s.calls[c := LinkCall(identity, target, Looking)])
    case Do(c, fault) =>
      if c !in s.calls then s
      else
        var k := s.calls[c];
        var r := LinkStep(s.store.disk, s.targets, k, fault);
        s.(targets := r.0, calls := s.calls[c := k.(phase := r.1)])
  }

  /** is_dir, then _clear_dest, then symlink_to, which wants the target gone. */
  function LinkStep(d: Disk, targets: map<string, TargetNode>, k: LinkCall, fault: bool)
    : (map<string, TargetNode>, LinkPhase)
  {
    match k.phase
    case Looking =>
      var path := PathFor(k.identity);
      (targets, if path.Ok? && IsDir(d, path.value) then Clearing(path.value) else NotInStore)
    case Clearing(to) => if fault then (targets, Failed) else (targets - {k.target}, Linking(to))
    case Linking(to) =>
      if fault || k.target in targets then (targets, Failed)
      else (targets[k.target := Symlink(to)], Linked(to))
    case other => (targets, other)
  }

  function LinkRun(hash: Hasher, s: Links, schedule: seq<LinkAction>): Links {
    if schedule == [] then s
    else LinkNext(hash, LinkRun(hash, s, schedule[..|schedule| - 1]), schedule[|schedule| - 1])
  }

  ghost predicate NoDangling(s: Links) {
    && (forall t :: t in s.targets && s.targets[t].Symlink? ==> IsDir(s.store.disk, s.targets[t].to))
    && (forall c :: c in s.calls ==> Aimed(s.store.disk, s.calls[c]))
  }

  /** A call that goes on found the entry of its own identity. */
  ghost predicate Aimed(d: Disk, k: LinkCall) {
    match k.phase
    case Clearing(to) => IsDir(d, to) && PathFor(k.identity) == Ok(to)
    case Linking(to) => IsDir(d, to) && PathFor(k.identity) == Ok(to)
    case Linked(to) => IsDir(d, to) && PathFor(k.identity) == Ok(to)
    case _ => true
  }

  lemma LinkStepSound(hash: Hasher, s: Links, a: LinkAction)
    requires NoDangling(s)
    ensures NoDangling(LinkNext(hash, s, a))
  {
    var t := LinkNext(hash, s, a);
    if a.Admission? {
      NextGrows(hash, s.store, a.action);
    }
    if a.Do? && a.call in s.calls {
      assert Aimed(s.store.disk, s.calls[a.call]);
    }
    forall c | c in t.calls
      ensures Aimed(t.store.disk, t.calls[c])
    {
      if c in s.calls {
        assert Aimed(s.store.disk, s.calls[c]);
      }
    }
  }

  /** No symlink link() makes ever dangles, however links and admissions interleave and whatever
      the admissions claim. */
  lemma {:induction false} LinksNeverDangle(hash: Hasher, s: Links, schedule: seq<LinkAction>)
    requires NoDangling(s)
    ensures NoDangling(LinkRun(hash, s, schedule))
  {
    if schedule != [] {
      var n := |schedule| - 1;
      LinksNeverDangle(hash, s, schedule[..n]);
      LinkStepSound(hash, LinkRun(hash, s, schedule[..n]), schedule[n]);
    }
  }

  ghost predicate HonestAdmissions(hash: Hasher, schedule: seq<LinkAction>) {
    forall a :: a in schedule && a.Admission? ==> Honest(hash, a.action)
  }

  lemma {:induction false} LinksKeepStore(hash: Hasher, s: Links, schedule: seq<LinkAction>)
    requires Sound(hash, s.store) && HonestAdmissions(hash, schedule)
    ensures Sound(hash, LinkRun(hash, s, schedule).store)
  {
    if schedule != [] {
      var n := |schedule| - 1;
      assert schedule[n] in schedule && forall a :: a in schedule[..n] ==> a in schedule;
      LinksKeepStore(hash, s, schedule[..n]);
      if schedule[n].Admission? {
        StepSound(hash, LinkRun(hash, s, schedule[..n]).store, schedule[n].action);
      }
    }
  }

  /** Where admissions are honest, what a finished link() points to has the hash it was asked for,
      at every later moment. */
  lemma LinkedHoldsIdentity(hash: Hasher, s: Links, schedule: seq<LinkAction>, c: nat)
    requires NoDangling(s) && Sound(hash, s.store) && HonestAdmissions(hash, schedule)
    requires c in LinkRun(hash, s, schedule).calls && LinkRun(hash, s, schedule).calls[c].phase.Linked?
    ensures var t := LinkRun(hash, s, schedule);
            var to := t.calls[c].phase.to;
            IsDir(t.store.disk, to) && hash(t.store.disk.root[to].tree) == Some(t.calls[c].identity)
  {
    var t := LinkRun(hash, s, schedule);
    LinksNeverDangle(hash, s, schedule);
    LinksKeepStore(hash, s, schedule);
    assert Aimed(t.store.disk, t.calls[c]);
    assert HashesToPath(hash, t.calls[c].phase.to, t.store.disk.root[t.calls[c].phase.to]);
    RenderPath(t.calls[c].identity);
  }

  /** An identity that is not stored leaves the target alone; the target changes only where the
      entry was found first. */
  lemma LinkTouchesOnlyAfterFinding(hash: Hasher, s: Links, c: nat, fault: bool)
    requires NoDangling(s) && c in s.calls
    requires LinkNext(hash, s, Do(c, fault)).targets != s.targets
    ensures PathFor(s.calls[c].identity).Ok? && IsDir(s.store.disk, PathFor(s.calls[c].identity).value)
    ensures forall t :: t != s.calls[c].target && t in s.targets ==>
              t in LinkNext(hash, s, Do(c, fault)).targets && LinkNext(hash, s, Do(c, fault)).targets[t] == s.targets[t]
  {
    assert Aimed(s.store.disk, s.calls[c]);
  }
}
