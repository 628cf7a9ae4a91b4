// Admission to the content-addressed store, as any number of processes do it at once.
module Cas {
  import opened Common
  import DagIdentity

  // ---- The store on disk -------------------------------------------------------------

  // A source tree: a directory without any entry, or one whose canonical walk is given. A
  // directory of empty directories walks to nothing too, but rename() tells the two apart.
  datatype Tree = EmptyDir | Filled(walk: seq<DagIdentity.Entry>)

  // What is found at <root>/<algorithm>/<hex>.
  datatype Node = Dir(tree: Tree) | NotADir
  type Path = (string, string)

  // compute_content_hash; whatever it is, it looks at the tree only.
  type Hasher = Tree -> Option<string>

  datatype IdentityError = NoAlgorithmPrefix | UnsupportedAlgorithm | WrongDigestLength | NonHexDigest

  /** path_for: the ordered checks on an identity string, then its two halves. */
  function PathFor(identity: string): Result<Path, IdentityError> {
    match PartitionAtColon(identity)
    case None => Err(NoAlgorithmPrefix)
    case Some(p) =>
      if p.0 != "dag-sha256" then Err(UnsupportedAlgorithm)
      else if |p.1| != 64 then Err(WrongDigestLength)
      else if !IsLowerHex(p.1) then Err(NonHexDigest)
      else Ok(p)
  }

  function Render(p: Path): string {
    p.0 + ":" + p.1
  }

  lemma RenderPath(identity: string)
    requires PathFor(identity).Ok?
    ensures Render(PathFor(identity).value) == identity
  {
    PartitionRejoins(identity);
  }

  // ---- Processes ------------------------------------------------------------------------

  datatype AdmitError = HashFailed | IdentityMismatch | BadIdentity(why: IdentityError) | OsError

  // Where in admit() a call stands: what it does next, or how it ended.
  datatype Phase =
    | Hashing | Checking(path: Path) | Making(path: Path) | Moving(path: Path) | Folding(path: Path)
    | Dropping(path: Path)
    | Done(outcome: Result<Path, AdmitError>)
    | Killed

  // `brought` is the tree as the call found it in its scratch directory, which goes by a fresh
  // uuid and is nobody else's; `scratch` is what the directory holds now, if it is there.
  datatype Call = Call(brought: Tree, identity: string, injected: Option<string>, scratch: Option<Tree>, phase: Phase)

  datatype Disk = Disk(root: map<Path, Node>, algorithms: set<string>)
  datatype State = State(disk: Disk, calls: map<nat, Call>)

  // One operation of one process. `fault` makes the system call of the step fail, and an
  // rmtree, which ignores errors, may leave some of the tree.
  datatype Action =
    | Start(call: nat, tree: Tree, identity: string, injected: Option<string>)
    | Step(call: nat, fault: bool, left: Option<Tree>)
    | LeaveScratch(call: nat, left: Option<Tree>)
    | Kill(call: nat)

  predicate IsDir(d: Disk, p: Path) {
    p in d.root && d.root[p].Dir?
  }

  function Rmtree(scratch: Option<Tree>, left: Option<Tree>): Option<Tree> {
    if scratch.None? then None else left
  }

  /** rename() of a directory: onto nothing, or onto an empty directory, inside an existing one. */
  predicate CanRename(d: Disk, scratch: Option<Tree>, p: Path) {
    scratch.Some? && p.0 in d.algorithms && (p in d.root ==> d.root[p] == Dir(EmptyDir))
  }

  function Claimed(hash: Hasher, k: Call): Option<string> {
    if k.injected.Some? then k.injected else hash(k.brought)
  }

  /** The hash comparison, and the canonical path. */
  function Verify(hash: Hasher, k: Call): Phase {
    if Claimed(hash, k).None? then Done(Err(HashFailed))
    else if Claimed(hash, k).value != k.identity then Done(Err(IdentityMismatch))
    else
      match PathFor(k.identity)
      case Err(e) => Done(Err(BadIdentity(e)))
      case Ok(p) => Checking(p)
  }

  /** The next operation of a call to admit(). */
  function Advance(hash: Hasher, d: Disk, k: Call, fault: bool, left: Option<Tree>): (Disk, Call) {
    match k.phase
    case Hashing => (d, k.(phase := Verify(hash, k)))
    case Checking(p) => (d, k.(phase := if IsDir(d, p) then Dropping(p) else Making(p)))
    case Making(p) =>
      if fault then (d, k.(phase := Done(Err(OsError))))
      else (d.(algorithms := d.algorithms + {p.0}), k.(phase := Moving(p)))
    case Moving(p) =>
      if fault || !CanRename(d, k.scratch, p) then (d, k.(phase := Folding(p)))
      else (d.(root := d.root[p := Dir(k.scratch.value)]), k.(scratch := None, phase := Done(Ok(p))))
    case Folding(p) => (d, k.(phase := if IsDir(d, p) then Dropping(p) else Done(Err(OsError))))
    case Dropping(p) => (d, k.(scratch := Rmtree(k.scratch, left), phase := Done(Ok(p))))
    case _ => (d, k)
  }

  function Act(hash: Hasher, d: Disk, k: Call, a: Action): (Disk, Call) {
    match a
    case Start(_, _, _, _) => (d, k)
    case Step(_, fault, left) => Advance(hash, d, k, fault, left)
    case LeaveScratch(_, left) => (d, if k.phase.Done? then k.(scratch := Rmtree(k.scratch, left)) else k)
    case Kill(_) => (d, if k.phase.Done? then k else k.(phase := Killed))
  }

  /** An operation that is not there to be done leaves everything as it is, so any sequence of
      actions is a schedule. */
  function Next(hash: Hasher, s: State, a: Action): State {
    if a.call in s.calls then
      var r := Act(hash, s.disk, s.calls[a.call], a);
      State(r.0, s.calls[a.call := r.1])
    else if a.Start? then
      s.(calls := s.calls[a.call := Call(a.tree, a.identity, a.injected, Some(a.tree), Hashing)])
    else
      s
  }

  function Run(hash: Hasher, s: State, schedule: seq<Action>): State {
    if schedule == [] then s
    else Next(hash, Run(hash, s, schedule[..|schedule| - 1]), schedule[|schedule| - 1])
  }

  // ---- What every step keeps ---------------------------------------------------------------

  ghost predicate HashesToPath(hash: Hasher, p: Path, n: Node) {
    n.Dir? ==> hash(n.tree) == Some(Render(p))
  }

  /** Every entry of the store has the content hash it is stored under. */
  ghost predicate StoreTrue(hash: Hasher, d: Disk) {
    forall p :: p in d.root ==> HashesToPath(hash, p, d.root[p])
  }

  predicate Busy(phase: Phase) {
    phase.Hashing? || phase.Checking? || phase.Making? || phase.Moving? || phase.Folding?
  }

  /** The canonical path, once the call has computed it. */
  function Canonical(phase: Phase): Option<Path> {
    if phase.Hashing? || phase.Killed? then None
    else if phase.Done? then (if phase.outcome.Ok? then Some(phase.outcome.value) else None)
    else Some(phase.path)
  }

  predicate Found(phase: Phase) {
    phase.Dropping? || (phase.Done? && phase.outcome.Ok?)
  }

  /** What a call relies on: that it brought what it claims, that its scratch directory is as it
      was until it is moved or dropped, and that what it found or made in the store is there. */
  ghost predicate CallSound(hash: Hasher, d: Disk, k: Call) {
    && (k.injected == Some(k.identity) ==> hash(k.brought) == Some(k.identity))
    && (Canonical(k.phase).Some? ==>
          PathFor(k.identity) == Ok(Canonical(k.phase).value) && Claimed(hash, k) == Some(k.identity))
    && (Busy(k.phase) ==> k.scratch == Some(k.brought))
    && (Found(k.phase) ==> IsDir(d, Canonical(k.phase).value))
  }

  ghost predicate Sound(hash: Hasher, s: State) {
    StoreTrue(hash, s.disk) && forall c :: c in s.calls ==> CallSound(hash, s.disk, s.calls[c])
  }

  /** A hash a caller injects is not the claimed identity, unless that is the hash of the tree. */
  ghost predicate Honest(hash: Hasher, a: Action) {
    a.Start? && a.injected == Some(a.identity) ==> hash(a.tree) == Some(a.identity)
  }

  ghost predicate AllHonest(hash: Hasher, schedule: seq<Action>) {
    forall a :: a in schedule ==> Honest(hash, a)
  }

  /** Directories stay, and so do the trees in them, but for an empty one. */
  ghost predicate Grown(d: Disk, later: Disk) {
    && d.algorithms <= later.algorithms
    && (forall p :: IsDir(d, p) ==> IsDir(later, p))
    && (forall p :: p in d.root && d.root[p] != Dir(EmptyDir) ==> p in later.root && later.root[p] == d.root[p])
  }

  /** An operation writes to the store in one case only: a verified call renames its own tree to
      the path of its own identity. */
  lemma ActWrites(hash: Hasher, d: Disk, k: Call, a: Action)
    requires CallSound(hash, d, k)
    ensures Act(hash, d, k, a).0.root != d.root ==>
              && a.Step? && k.phase.Moving?
              && hash(k.brought) == Some(k.identity) && PathFor(k.identity) == Ok(k.phase.path)
              && Act(hash, d, k, a).0.root == d.root[k.phase.path := Dir(k.brought)]
              && CanRename(d, k.scratch, k.phase.path)
  {
  }

  lemma ActSound(hash: Hasher, d: Disk, k: Call, a: Action)
    requires CallSound(hash, d, k)
    ensures CallSound(hash, Act(hash, d, k, a).0, Act(hash, d, k, a).1)
  {
  }

  lemma ActKeepsTruth(hash: Hasher, d: Disk, k: Call, a: Action)
    requires CallSound(hash, d, k) && StoreTrue(hash, d)
    ensures StoreTrue(hash, Act(hash, d, k, a).0)
  {
    ActWrites(hash, d, k, a);
    if Canonical(k.phase).Some? {
      RenderPath(k.identity);
    }
  }

  /** Nothing is removed from the store, whoever does what. */
  lemma NextGrows(hash: Hasher, s: State, a: Action)
    ensures Grown(s.disk, Next(hash, s, a).disk)
  {
  }

  lemma StepSound(hash: Hasher, s: State, a: Action)
    requires Sound(hash, s) && Honest(hash, a)
    ensures Sound(hash, Next(hash, s, a))
  {
    NextGrows(hash, s, a);
    var t := Next(hash, s, a);
    if a.call in s.calls {
      ActWrites(hash, s.disk, s.calls[a.call], a);
      ActSound(hash, s.disk, s.calls[a.call], a);
      ActKeepsTruth(hash, s.disk, s.calls[a.call], a);
    }
    forall c | c in t.calls
      ensures CallSound(hash, t.disk, t.calls[c])
    {
      if c != a.call {
        assert CallSound(hash, s.disk, s.calls[c]);
      }
    }
  }

  // ---- What every run keeps -------------------------------------------------------------------

  lemma {:induction false} RunSound(hash: Hasher, s: State, schedule: seq<Action>)
    requires Sound(hash, s) && AllHonest(hash, schedule)
    ensures Sound(hash, Run(hash, s, schedule))
  {
    if schedule != [] {
      var init, last := schedule[..|schedule| - 1], schedule[|schedule| - 1];
      assert forall a :: a in init ==> a in schedule;
      RunSound(hash, s, init);
      StepSound(hash, Run(hash, s, init), last);
    }
  }

  lemma {:induction false} RunGrows(hash: Hasher, s: State, schedule: seq<Action>)
    ensures Grown(s.disk, Run(hash, s, schedule).disk)
  {
    if schedule != [] {
      var init, last := schedule[..|schedule| - 1], schedule[|schedule| - 1];
      RunGrows(hash, s, init);
      NextGrows(hash, Run(hash, s, init), last);
    }
  }

  lemma {:induction false} RunAppend(hash: Hasher, s: State, first: seq<Action>, rest: seq<Action>)
    ensures Run(hash, s, first + rest) == Run(hash, Run(hash, s, first), rest)
  {
    if rest == [] {
      assert first + rest == first;
    } else {
      var n := |rest| - 1;
      assert (first + rest)[..|first| + n] == first + rest[..n];
      RunAppend(hash, s, first, rest[..n]);
    }
  }

  /** The store is safe in every interleaving: at every moment of a run every entry hashes to
      its identity, and no entry there was is gone. */
  lemma StoreSafe(hash: Hasher, s: State, schedule: seq<Action>, n: nat)
    requires Sound(hash, s) && AllHonest(hash, schedule) && n <= |schedule|
    ensures var mid := Run(hash, s, schedule[..n]);
            && StoreTrue(hash, mid.disk)
            && Grown(s.disk, mid.disk) && Grown(mid.disk, Run(hash, s, schedule).disk)
  {
    var mid := Run(hash, s, schedule[..n]);
    assert schedule[..n] + schedule[n..] == schedule;
    RunSound(hash, s, schedule[..n]);
    RunGrows(hash, s, schedule[..n]);
    RunGrows(hash, mid, schedule[n..]);
    RunAppend(hash, s, schedule[..n], schedule[n..]);
  }

  /** What a call claims, and how it ended, it does not take back. */
  ghost predicate SameCall(k: Call, later: Call) {
    && later.brought == k.brought && later.identity == k.identity && later.injected == k.injected
    && (k.phase.Done? ==> later.phase == k.phase)
  }

  lemma NextKeepsCall(hash: Hasher, s: State, a: Action, c: nat)
    requires c in s.calls
    ensures c in Next(hash, s, a).calls && SameCall(s.calls[c], Next(hash, s, a).calls[c])
    ensures c != a.call ==> Next(hash, s, a).calls[c] == s.calls[c]
  {
  }

  lemma {:induction false} CallStays(hash: Hasher, s: State, schedule: seq<Action>, c: nat)
    requires c in s.calls
    ensures c in Run(hash, s, schedule).calls && SameCall(s.calls[c], Run(hash, s, schedule).calls[c])
  {
    if schedule != [] {
      var init, last := schedule[..|schedule| - 1], schedule[|schedule| - 1];
      CallStays(hash, s, init, c);
      NextKeepsCall(hash, Run(hash, s, init), last, c);
    }
  }

  /** A path that admit() returned is the one of its identity, and a directory there from then on. */
  lemma ReturnedPathStays(hash: Hasher, s: State, schedule: seq<Action>, c: nat)
    requires Sound(hash, s) && AllHonest(hash, schedule)
    requires c in s.calls && s.calls[c].phase.Done? && s.calls[c].phase.outcome.Ok?
    ensures PathFor(s.calls[c].identity) == Ok(s.calls[c].phase.outcome.value)
    ensures IsDir(Run(hash, s, schedule).disk, s.calls[c].phase.outcome.value)
  {
    RunGrows(hash, s, schedule);
    assert CallSound(hash, s.disk, s.calls[c]);
  }

  function Walk(t: Tree): seq<DagIdentity.Entry> {
    match t case EmptyDir => [] case Filled(walk) => walk
  }

  /** The hasher of the system: the identity of the walk, undefined where that raises. */
  ghost predicate IsContentHash(h: HashFn, hash: Hasher) {
    forall t: Tree ::
      hash(t) == match DagIdentity.Identity(h, Walk(t)) case Ok(id) => Some(id) case Err(_) => None
  }

  /** Whoever won the race, a path that admit() returned holds the caller's files from then on,
      unless two byte strings with one digest have been hashed. */
  lemma ReturnedPathHoldsTheFiles(h: HashFn, hash: Hasher, s: State, schedule: seq<Action>, c: nat)
    requires IsContentHash(h, hash) && Sound(hash, s) && AllHonest(hash, schedule)
    requires c in s.calls && s.calls[c].phase.Done? && s.calls[c].phase.outcome.Ok?
    ensures var d, path := Run(hash, s, schedule).disk, s.calls[c].phase.outcome.value;
            && IsDir(d, path)
            && var mine, kept := Walk(s.calls[c].brought), Walk(d.root[path].tree);
            && DagIdentity.Identity(h, mine).Ok? && DagIdentity.Identity(h, kept).Ok?
            && (DagIdentity.SameDenotation(mine, kept) || DagIdentity.EntriesCollide(h, mine, kept))
  {
    var t, k := Run(hash, s, schedule), s.calls[c];
    RunSound(hash, s, schedule);
    CallStays(hash, s, schedule, c);
    assert CallSound(hash, t.disk, t.calls[c]);
    var path := k.phase.outcome.value;
    assert HashesToPath(hash, path, t.disk.root[path]);
    RenderPath(k.identity);
    DagIdentity.IdentityCharacterizes(h, Walk(k.brought), Walk(t.disk.root[path].tree));
  }

  // ---- Mismatch ------------------------------------------------------------------------------

  /** A call that brings the wrong tree for its identity, or a hash of it that is not the identity,
      raises at its first step, and no step of it changes the store or its own tree. */
  lemma MismatchLeavesStore(hash: Hasher, s: State, c: nat, fault: bool, left: Option<Tree>)
    requires Sound(hash, s) && c in s.calls
    requires var k := s.calls[c]; hash(k.brought) != Some(k.identity) || Claimed(hash, k) != Some(k.identity)
    ensures var k, t := s.calls[c], Next(hash, s, Step(c, fault, left));
            && t.disk == s.disk
            && t.calls[c] == (if !k.phase.Hashing? then k
                              else k.(phase := Done(Err(if Claimed(hash, k).None? then HashFailed else IdentityMismatch))))
  {
    assert CallSound(hash, s.disk, s.calls[c]);
  }

  function Twice(a: Action): seq<Action> {
    [a] + [a]
  }

  function FourSteps(c: nat): seq<Action> {
    Twice(Step(c, false, None)) + Twice(Step(c, false, None))
  }

  /** A dishonest call for an identity not yet stored gets its tree stored under that identity,
      whatever the state. */
  lemma FalseHashPoisons(hash: Hasher, s: State, a: Action)
    requires a.Start? && !Honest(hash, a) && a.call !in s.calls
    requires PathFor(a.identity).Ok? && PathFor(a.identity).value !in s.disk.root
    ensures !StoreTrue(hash, Run(hash, Next(hash, s, a), FourSteps(a.call)).disk)
  {
    var path, step, c := PathFor(a.identity).value, Step(a.call, false, None), a.call;
    var k := Call(a.tree, a.identity, a.injected, Some(a.tree), Hashing);
    var s1 := Next(hash, s, a);
    var s2, s3 := Next(hash, s1, step), Next(hash, Next(hash, s1, step), step);
    var made := s.disk.(algorithms := s.disk.algorithms + {path.0});
    StepOf(hash, s1, c, k, s.disk, k.(phase := Checking(path)));
    StepOf(hash, s2, c, k.(phase := Checking(path)), s.disk, k.(phase := Making(path)));
    StepOf(hash, s3, c, k.(phase := Making(path)), made, k.(phase := Moving(path)));
    StepOf(hash, Next(hash, s3, step), c, k.(phase := Moving(path)),
           made.(root := made.root[path := Dir(a.tree)]), k.(scratch := None, phase := Done(Ok(path))));
    RunFour(hash, s1, c);
    RenderPath(a.identity);
    var d := Run(hash, s1, FourSteps(c)).disk;
    assert path in d.root && d.root[path] == Dir(a.tree);
    assert !HashesToPath(hash, path, d.root[path]);
  }

  lemma RunTwice(hash: Hasher, s: State, a: Action)
    ensures Run(hash, s, Twice(a)) == Next(hash, Next(hash, s, a), a)
  {
    Append1(hash, s, [], a);
    assert [] + [a] == [a];
    Append1(hash, s, [a], a);
  }

  lemma RunFour(hash: Hasher, s: State, c: nat)
    ensures var a := Step(c, false, None);
            Run(hash, s, FourSteps(c)) == Next(hash, Next(hash, Next(hash, Next(hash, s, a), a), a), a)
  {
    var a := Step(c, false, None);
    RunAppend(hash, s, Twice(a), Twice(a));
    RunTwice(hash, s, a);
    RunTwice(hash, Next(hash, Next(hash, s, a), a), a);
  }

  /** So a call is safe to begin, whatever honest ones come with it, exactly if it is honest. */
  lemma SafeExactlyIfHonest(hash: Hasher, s: State, a: Action)
    requires Sound(hash, s) && a.Start? && a.call !in s.calls
    requires PathFor(a.identity).Ok? && PathFor(a.identity).value !in s.disk.root
    ensures Honest(hash, a) <==>
            forall rest :: AllHonest(hash, rest) ==> StoreTrue(hash, Run(hash, Next(hash, s, a), rest).disk)
  {
    if Honest(hash, a) {
      StepSound(hash, s, a);
      forall rest | AllHonest(hash, rest)
        ensures StoreTrue(hash, Run(hash, Next(hash, s, a), rest).disk)
      {
        RunSound(hash, Next(hash, s, a), rest);
      }
    } else {
      FalseHashPoisons(hash, s, a);
      assert AllHonest(hash, FourSteps(a.call));
    }
  }

  lemma Append1(hash: Hasher, s: State, schedule: seq<Action>, a: Action)
    ensures Run(hash, s, schedule + [a]) == Next(hash, Run(hash, s, schedule), a)
  {
    assert (schedule + [a])[..|schedule|] == schedule;
  }

  lemma StepOf(hash: Hasher, s: State, c: nat, k: Call, d: Disk, k': Call)
    requires c in s.calls && s.calls[c] == k && Advance(hash, s.disk, k, false, None) == (d, k')
    ensures var t := Next(hash, s, Step(c, false, None)); t.disk == d && c in t.calls && t.calls[c] == k'
  {
  }

  // ---- Outcomes ---------------------------------------------------------------------------------

  ghost predicate Untroubled(a: Action, c: nat) {
    a.call == c ==> !a.Kill? && (a.Step? ==> !a.fault)
  }

  /** Something that is not a directory stands at the canonical path. */
  ghost predicate Obstructed(d: Disk, identity: string) {
    PathFor(identity).Ok? && PathFor(identity).value in d.root && d.root[PathFor(identity).value].NotADir?
  }

  /** How a call stands whose system calls never failed on their own account. */
  ghost predicate Blameless(hash: Hasher, d: Disk, k: Call) {
    match k.phase
    case Killed => false
    case Moving(p) => p.0 in d.algorithms
    case Folding(p) => p in d.root
    case Done(Err(HashFailed)) => Claimed(hash, k) == None
    case Done(Err(IdentityMismatch)) => Claimed(hash, k).Some? && Claimed(hash, k) != Some(k.identity)
    case Done(Err(BadIdentity(e))) => PathFor(k.identity) == Err(e) && Claimed(hash, k) == Some(k.identity)
    case Done(Err(OsError)) => Obstructed(d, k.identity) && Claimed(hash, k) == Some(k.identity)
    case _ => true
  }

  lemma ActBlameless(hash: Hasher, d: Disk, k: Call, a: Action)
    requires CallSound(hash, d, k) && Blameless(hash, d, k)
    requires !a.Kill? && (a.Step? ==> !a.fault)
    ensures Blameless(hash, Act(hash, d, k, a).0, Act(hash, d, k, a).1)
  {
  }

  lemma GrownBlameless(hash: Hasher, d: Disk, later: Disk, k: Call)
    requires Grown(d, later) && Blameless(hash, d, k)
    ensures Blameless(hash, later, k)
  {
    if k.phase.Folding? {
      assert d.root[k.phase.path] == Dir(EmptyDir) ==> IsDir(d, k.phase.path);
    }
  }

  lemma StepBlameless(hash: Hasher, s: State, a: Action, c: nat)
    requires Sound(hash, s) && Honest(hash, a) && c in s.calls && Blameless(hash, s.disk, s.calls[c]) && Untroubled(a, c)
    ensures c in Next(hash, s, a).calls && Blameless(hash, Next(hash, s, a).disk, Next(hash, s, a).calls[c])
  {
    assert CallSound(hash, s.disk, s.calls[c]);
    if a.call == c {
      ActBlameless(hash, s.disk, s.calls[c], a);
    } else {
      NextGrows(hash, s, a);
      NextKeepsCall(hash, s, a, c);
      GrownBlameless(hash, s.disk, Next(hash, s, a).disk, s.calls[c]);
    }
  }

  lemma {:induction false} RunBlameless(hash: Hasher, s: State, schedule: seq<Action>, c: nat)
    requires Sound(hash, s) && AllHonest(hash, schedule) && c in s.calls && Blameless(hash, s.disk, s.calls[c])
    requires forall a :: a in schedule ==> Untroubled(a, c)
    ensures c in Run(hash, s, schedule).calls
    ensures Blameless(hash, Run(hash, s, schedule).disk, Run(hash, s, schedule).calls[c])
  {
    if schedule != [] {
      var init, last := schedule[..|schedule| - 1], schedule[|schedule| - 1];
      assert forall a :: a in init ==> a in schedule;
      RunBlameless(hash, s, init, c);
      RunSound(hash, s, init);
      assert Honest(hash, last) && Untroubled(last, c);
      StepBlameless(hash, Run(hash, s, init), last, c);
    }
  }

  /** A race is no failure. A call none of whose own system calls fails, whatever the others do,
      returns the path of its identity exactly if its tree has that identity, by the hash it
      injected where it did, and the identity is well formed, unless something that is not a
      directory stands there. */
  lemma AdmitOutcome(hash: Hasher, s: State, schedule: seq<Action>, c: nat)
    requires Sound(hash, s) && AllHonest(hash, schedule) && forall a :: a in schedule ==> Untroubled(a, c)
    requires c in s.calls && s.calls[c].phase.Hashing?
    requires c in Run(hash, s, schedule).calls && Run(hash, s, schedule).calls[c].phase.Done?
    ensures var t, k := Run(hash, s, schedule), s.calls[c];
            var path, outcome := PathFor(k.identity), t.calls[c].phase.outcome;
            if Claimed(hash, k) != Some(k.identity) then
              outcome == Err(if Claimed(hash, k).None? then HashFailed else IdentityMismatch)
            else if path.Err? then outcome == Err(BadIdentity(path.error))
            else if Obstructed(t.disk, k.identity) then outcome == Err(OsError)
            else outcome == Ok(path.value) && IsDir(t.disk, path.value)
  {
    RunBlameless(hash, s, schedule, c);
    RunSound(hash, s, schedule);
    CallStays(hash, s, schedule, c);
    assert CallSound(hash, Run(hash, s, schedule).disk, Run(hash, s, schedule).calls[c]);
  }

  // ---- Scratch directories --------------------------------------------------------------------------

  /** No rmtree of this call's leaves anything. */
  ghost predicate SweepsClean(a: Action, c: nat) {
    a.call == c && (a.Step? || a.LeaveScratch?) ==> a.left.None?
  }

  ghost predicate Tidy(k: Call) {
    Found(k.phase) && k.phase.Done? ==> k.scratch.None?
  }

  lemma {:induction false} RunTidy(hash: Hasher, s: State, schedule: seq<Action>, c: nat)
    requires c in s.calls && Tidy(s.calls[c]) && forall a :: a in schedule ==> SweepsClean(a, c)
    ensures c in Run(hash, s, schedule).calls && Tidy(Run(hash, s, schedule).calls[c])
  {
    if schedule != [] {
      var init, last := schedule[..|schedule| - 1], schedule[|schedule| - 1];
      assert last in schedule && forall a :: a in init ==> a in schedule;
      RunTidy(hash, s, init, c);
      NextKeepsCall(hash, Run(hash, s, init), last, c);
    }
  }

  lemma {:induction false} SweptStays(hash: Hasher, s: State, schedule: seq<Action>, c: nat)
    requires c in s.calls && s.calls[c].phase.Done? && s.calls[c].scratch.None?
    ensures c in Run(hash, s, schedule).calls && Run(hash, s, schedule).calls[c].scratch.None?
  {
    if schedule != [] {
      var init, last := schedule[..|schedule| - 1], schedule[|schedule| - 1];
      SweptStays(hash, s, init, c);
      CallStays(hash, s, init, c);
      NextKeepsCall(hash, Run(hash, s, init), last, c);
    }
  }

  /** What is admitted leaves nothing behind: it was moved, or dropped. What is refused is left
      for the scratch() block to sweep, and is gone once it did. So a directory left over, where
      no rmtree fails, is that of a call still at work or killed. */
  lemma ScratchIsSwept(hash: Hasher, s: State, schedule: seq<Action>, c: nat, later: seq<Action>)
    requires c in s.calls && s.calls[c].phase.Hashing? && forall a :: a in schedule ==> SweepsClean(a, c)
    requires c in Run(hash, s, schedule).calls && Run(hash, s, schedule).calls[c].phase.Done?
    ensures Run(hash, s, schedule).calls[c].phase.outcome.Ok? ==> Run(hash, s, schedule).calls[c].scratch.None?
    ensures var t := Run(hash, Next(hash, Run(hash, s, schedule), LeaveScratch(c, None)), later);
            c in t.calls && t.calls[c].scratch.None?
  {
    RunTidy(hash, s, schedule, c);
    SweptStays(hash, Next(hash, Run(hash, s, schedule), LeaveScratch(c, None)), later, c);
  }

  // ---- Progress -----------------------------------------------------------------------------------

  function Rank(phase: Phase): nat {
    match phase
    case Hashing => 6
    case Checking(_) => 5
    case Making(_) => 4
    case Moving(_) => 3
    case Folding(_) => 2
    case Dropping(_) => 1
    case _ => 0
  }

  function OwnSteps(schedule: seq<Action>, c: nat): nat {
    if schedule == [] then 0
    else
      var last := schedule[|schedule| - 1];
      OwnSteps(schedule[..|schedule| - 1], c) + (if last.Step? && last.call == c then 1 else 0)
  }

  lemma NextRank(hash: Hasher, s: State, a: Action, c: nat)
    requires c in s.calls
    ensures c in Next(hash, s, a).calls
    ensures var r, r' := Rank(s.calls[c].phase), Rank(Next(hash, s, a).calls[c].phase);
            r' == 0 || r' <= r - (if a.Step? && a.call == c then 1 else 0)
  {
  }

  lemma {:induction false} RankFalls(hash: Hasher, s: State, schedule: seq<Action>, c: nat)
    requires c in s.calls
    ensures c in Run(hash, s, schedule).calls
    ensures var r, r' := Rank(s.calls[c].phase), Rank(Run(hash, s, schedule).calls[c].phase);
            r' == 0 || r' <= r - OwnSteps(schedule, c)
  {
    if schedule != [] {
      var init, last := schedule[..|schedule| - 1], schedule[|schedule| - 1];
      RankFalls(hash, s, init, c);
      NextRank(hash, Run(hash, s, init), last, c);
    }
  }

  /** Nobody waits for anybody: six steps of its own end a call, however many others there are
      and whatever they do in between. */
  lemma AdmitEnds(hash: Hasher, s: State, schedule: seq<Action>, c: nat)
    requires c in s.calls && OwnSteps(schedule, c) >= 6
    ensures c in Run(hash, s, schedule).calls
    ensures Run(hash, s, schedule).calls[c].phase.Done? || Run(hash, s, schedule).calls[c].phase.Killed?
  {
    RankFalls(hash, s, schedule, c);
  }
}
