// The cache of one hash-pinned artifact, as any number of processes read, heal and fill it at
// once, crash at any point, and fetch from servers that may answer anything.
module ArtifactCache {
  import opened Common

  type Ino = nat

  // Files are inodes; the cache path and the temporary names point at some of them. An inode
  // that lost its name is still there for who has it open; `next` is the next new one.
  datatype Fs = Fs(files: map<Ino, Bytes>, next: Ino, cache: Option<Ino>, temps: map<nat, Ino>)

  datatype Answer = TransportFailure | Response(status: Option<nat>, body: Bytes)

  datatype GetError = FetchFailed | HashMismatch | OsError

  // Where in get() a call stands: what it does next, or how it ended.
  datatype Phase =
    | Opening
    | Reading(ino: Ino, got: Bytes)
    | Checking(bytes: Bytes)
    | Healing
    | Fetching
    | MakingDir(bytes: Bytes)
    | Creating(bytes: Bytes)
    | Writing(bytes: Bytes, ino: Ino, written: nat)
    | Replacing(bytes: Bytes, ino: Ino)
    | CleaningUp(bytes: Bytes)
    | Done(outcome: Result<Bytes, GetError>)
    | Killed

  // What the world settles about one operation: whether its system call fails, how many bytes
  // go through at once, and what the server answers.
  datatype Op = Op(fault: bool, noDir: bool, count: nat, answer: Answer)

  datatype Action = Start(call: nat) | Step(call: nat, op: Op) | Kill(call: nat)

  datatype State = State(fs: Fs, calls: map<nat, Phase>)

  // The pin: which bytes hash to it; and the temporary name a call writes under.
  datatype Setup = Setup(verify: Bytes -> bool, tempName: nat -> nat)

  function Zeros(n: nat): Bytes {
    seq(n, _ => 0)
  }

  /** write() at an offset; a gap before it reads as zeros. */
  function WriteAt(content: Bytes, at: nat, chunk: Bytes): Bytes {
    var before := if at <= |content| then content[..at] else content + Zeros(at - |content|);
    before + chunk + (if at + |chunk| <= |content| then content[at + |chunk|..] else [])
  }

  /** At least one byte, and no more than there are. */
  function Portion(count: nat, available: nat): (n: nat)
    ensures n <= available && (available > 0 ==> n > 0)
  {
    if available == 0 then 0 else if count == 0 then 1 else if count < available then count else available
  }

  /** read_verified_or_self_heal: open, read to the end, verify, and unlink what does not. */
  function ReadStep(u: Setup, fs: Fs, k: Phase, op: Op): (Fs, Phase) {
    match k
    case Opening =>
      (fs, if op.fault || fs.cache.None? then Fetching else Reading(fs.cache.value, []))
    case Reading(i, got) =>
      if op.fault || i !in fs.files || |got| > |fs.files[i]| then (fs, Fetching)
      else if |got| == |fs.files[i]| then (fs, Checking(got))
      else (fs, Reading(i, fs.files[i][..|got| + Portion(op.count, |fs.files[i]| - |got|)]))
    case Checking(b) => (fs, if u.verify(b) then Done(Ok(b)) else Healing)
    case Healing => (if op.fault then fs else fs.(cache := None), Fetching)
    case _ => (fs, k)
  }

  /** The fetch, with its two ways to fail; what was fetched is verified and not healed. */
  function FetchStep(u: Setup, answer: Answer): Phase {
    match answer
    case TransportFailure => Done(Err(FetchFailed))
    case Response(status, body) =>
      if status.Some? && status.value >= 400 then Done(Err(FetchFailed))
      else if !u.verify(body) then Done(Err(HashMismatch))
      else MakingDir(body)
  }

  /** atomic_write_bytes: create or truncate the temporary file, fill it, put it in place. A
      failure is cleaned up after and not heard of. */
  function WriteStep(fs: Fs, name: nat, k: Phase, op: Op): (Fs, Phase) {
    match k
    case Creating(b) =>
      if op.fault then (fs, CleaningUp(b))
      else if name in fs.temps then
        (fs.(files := fs.files[fs.temps[name] := []]), Writing(b, fs.temps[name], 0))
      else
        var grown := fs.(files := fs.files[fs.next := []], next := fs.next + 1, temps := fs.temps[name := fs.next]);
        (grown, Writing(b, fs.next, 0))
    case Writing(b, i, n) =>
      if op.fault || i !in fs.files || n > |b| then (fs, CleaningUp(b))
      else if n == |b| then (fs, Replacing(b, i))
      else
        var m := n + Portion(op.count, |b| - n);
        (fs.(files := fs.files[i := WriteAt(fs.files[i], n, b[n..m])]), Writing(b, i, m))
    case Replacing(b, _) =>
      if op.fault || name !in fs.temps then (fs, CleaningUp(b))
      else (fs.(cache := Some(fs.temps[name]), temps := fs.temps - {name}), Done(Ok(b)))
    case CleaningUp(b) => (if op.fault then fs else fs.(temps := fs.temps - {name}), Done(Ok(b)))
    case _ => (fs, k)
  }

  /** The next operation of a call to get(). */
  function Act(u: Setup, fs: Fs, name: nat, k: Phase, op: Op): (Fs, Phase) {
    match k
    case Fetching => (fs, FetchStep(u, op.answer))
    case MakingDir(b) => (fs, if op.noDir then Done(Err(OsError)) else Creating(b))
    case Creating(_) => WriteStep(fs, name, k, op)
    case Writing(_, _, _) => WriteStep(fs, name, k, op)
    case Replacing(_, _) => WriteStep(fs, name, k, op)
    case CleaningUp(_) => WriteStep(fs, name, k, op)
    case _ => ReadStep(u, fs, k, op)
  }

  /** An operation that is not there to be done leaves everything as it is, so any sequence of
      actions is a schedule. */
  function Next(u: Setup, s: State, a: Action): State {
    if a.call in s.calls then
      match a
      case Start(_) => s
      case Step(c, op) =>
        var r := Act(u, s.fs, u.tempName(c), s.calls[c], op);
        State(r.0, s.calls[c := r.1])
      case Kill(c) => if s.calls[c].Done? then s else s.(calls := s.calls[c := Killed])
    else if a.Start? then s.(calls := s.calls[a.call := Opening])
    else s
  }

  function Run(u: Setup, s: State, schedule: seq<Action>): State {
    if schedule == [] then s
    else Next(u, Run(u, s, schedule[..|schedule| - 1]), schedule[|schedule| - 1])
  }

  // ---- What every step keeps --------------------------------------------------------------

  /** A file that may be under the cache path: the one found there in the beginning, as it was,
      or one whose whole content verifies. */
  ghost predicate Good(u: Setup, fs: Fs, origin: Option<(Ino, Bytes)>, i: Ino) {
    i in fs.files && (u.verify(fs.files[i]) || origin == Some((i, fs.files[i])))
  }

  ghost predicate NoTemp(fs: Fs, i: Ino) {
    forall n :: n in fs.temps ==> fs.temps[n] != i
  }

  ghost predicate FsSound(u: Setup, fs: Fs, origin: Option<(Ino, Bytes)>) {
    && (fs.cache.Some? ==> Good(u, fs, origin, fs.cache.value) && NoTemp(fs, fs.cache.value))
    && (origin.Some? ==> origin.value.0 in fs.files && NoTemp(fs, origin.value.0))
    && (forall i :: i in fs.files ==> i < fs.next)
    && (forall n :: n in fs.temps ==> fs.temps[n] in fs.files)
    && (forall m, n :: m in fs.temps && n in fs.temps && fs.temps[m] == fs.temps[n] ==> m == n)
  }

  /** What a call can rely on: the file it reads is finished, the file it writes is its own and
      holds what it has written, and what it means to return verifies. */
  ghost predicate CallSound(u: Setup, fs: Fs, origin: Option<(Ino, Bytes)>, name: nat, k: Phase) {
    match k
    case Reading(i, got) => Good(u, fs, origin, i) && NoTemp(fs, i) && got <= fs.files[i]
    case MakingDir(b) => u.verify(b)
    case Creating(b) => u.verify(b)
    case Writing(b, i, n) =>
      u.verify(b) && name in fs.temps && fs.temps[name] == i && i in fs.files && n <= |b| && fs.files[i] == b[..n]
    case Replacing(b, i) => u.verify(b) && name in fs.temps && fs.temps[name] == i && i in fs.files && fs.files[i] == b
    case CleaningUp(b) => u.verify(b)
    case Done(Ok(b)) => u.verify(b)
    case _ => true
  }

  ghost predicate Sound(u: Setup, s: State, origin: Option<(Ino, Bytes)>) {
    FsSound(u, s.fs, origin) && forall c :: c in s.calls ==> CallSound(u, s.fs, origin, u.tempName(c), s.calls[c])
  }

  ghost predicate UniqueNames(u: Setup) {
    forall c, d :: u.tempName(c) == u.tempName(d) ==> c == d
  }

  /** What a call may do to the files: change the one under its own temporary name, rename that
      one into place, take names away, or add a file. */
  ghost predicate Touches(fs: Fs, later: Fs, name: nat) {
    && (forall i :: i in fs.files ==>
          i in later.files && (later.files[i] == fs.files[i] || (name in fs.temps && fs.temps[name] == i)))
    && (forall n :: n != name ==> (n in fs.temps <==> n in later.temps) && (n in fs.temps ==> later.temps[n] == fs.temps[n]))
    && (name in later.temps ==> (name in fs.temps && later.temps[name] == fs.temps[name]) || later.temps[name] !in fs.files)
    && (later.cache == fs.cache || later.cache == None || (name in fs.temps && later.cache == Some(fs.temps[name])))
  }

  lemma ReadSound(u: Setup, fs: Fs, origin: Option<(Ino, Bytes)>, name: nat, k: Phase, op: Op)
    requires FsSound(u, fs, origin) && CallSound(u, fs, origin, name, k)
    ensures var (later, k') := ReadStep(u, fs, k, op);
            FsSound(u, later, origin) && CallSound(u, later, origin, name, k') && Touches(fs, later, name)
  {
  }

  lemma CreateSound(u: Setup, fs: Fs, origin: Option<(Ino, Bytes)>, name: nat, b: Bytes, op: Op)
    requires FsSound(u, fs, origin) && CallSound(u, fs, origin, name, Creating(b))
    ensures var (later, k') := WriteStep(fs, name, Creating(b), op);
            FsSound(u, later, origin) && CallSound(u, later, origin, name, k') && Touches(fs, later, name)
  {
  }

  lemma WriteSound(u: Setup, fs: Fs, origin: Option<(Ino, Bytes)>, name: nat, b: Bytes, i: Ino, n: nat, op: Op)
    requires FsSound(u, fs, origin) && CallSound(u, fs, origin, name, Writing(b, i, n))
    ensures var (later, k') := WriteStep(fs, name, Writing(b, i, n), op);
            FsSound(u, later, origin) && CallSound(u, later, origin, name, k') && Touches(fs, later, name)
  {
    assert b[..|b|] == b;
    if n < |b| {
      var m := n + Portion(op.count, |b| - n);
      assert WriteAt(b[..n], n, b[n..m]) == b[..m];
    }
  }

  lemma ReplaceSound(u: Setup, fs: Fs, origin: Option<(Ino, Bytes)>, name: nat, k: Phase, op: Op)
    requires FsSound(u, fs, origin) && CallSound(u, fs, origin, name, k) && (k.Replacing? || k.CleaningUp?)
    ensures var (later, k') := WriteStep(fs, name, k, op);
            FsSound(u, later, origin) && CallSound(u, later, origin, name, k') && Touches(fs, later, name)
  {
  }

  lemma ActSound(u: Setup, fs: Fs, origin: Option<(Ino, Bytes)>, name: nat, k: Phase, op: Op)
    requires FsSound(u, fs, origin) && CallSound(u, fs, origin, name, k)
    ensures var (later, k') := Act(u, fs, name, k, op);
            FsSound(u, later, origin) && CallSound(u, later, origin, name, k') && Touches(fs, later, name)
  {
    match k
    case Creating(b) => CreateSound(u, fs, origin, name, b, op);
    case Writing(b, i, n) => WriteSound(u, fs, origin, name, b, i, n, op);
    case Replacing(_, _) => ReplaceSound(u, fs, origin, name, k, op);
    case CleaningUp(_) => ReplaceSound(u, fs, origin, name, k, op);
    case _ => ReadSound(u, fs, origin, name, k, op);
  }

  // The step of one call does not pull the rug from under another.
  lemma OtherSound(u: Setup, fs: Fs, later: Fs, origin: Option<(Ino, Bytes)>, name: nat, other: nat, k: Phase)
    requires FsSound(u, fs, origin) && Touches(fs, later, name) && FsSound(u, later, origin)
    requires other != name && CallSound(u, fs, origin, other, k)
    ensures CallSound(u, later, origin, other, k)
  {
  }

  lemma StepSound(u: Setup, s: State, origin: Option<(Ino, Bytes)>, a: Action)
    requires UniqueNames(u) && Sound(u, s, origin)
    ensures Sound(u, Next(u, s, a), origin)
  {
    if a.Step? && a.call in s.calls {
      var t := Next(u, s, a);
      ActSound(u, s.fs, origin, u.tempName(a.call), s.calls[a.call], a.op);
      forall c | c in t.calls
        ensures CallSound(u, t.fs, origin, u.tempName(c), t.calls[c])
      {
        if c != a.call {
          OtherSound(u, s.fs, t.fs, origin, u.tempName(a.call), u.tempName(c), s.calls[c]);
        }
      }
    }
  }

  // ---- What every run keeps ---------------------------------------------------------------------

  lemma {:induction false} RunSound(u: Setup, s: State, origin: Option<(Ino, Bytes)>, schedule: seq<Action>)
    requires UniqueNames(u) && Sound(u, s, origin)
    ensures Sound(u, Run(u, s, schedule), origin)
  {
    if schedule != [] {
      RunSound(u, s, origin, schedule[..|schedule| - 1]);
      StepSound(u, Run(u, s, schedule[..|schedule| - 1]), origin, schedule[|schedule| - 1]);
    }
  }

  /** The state a run starts in: something, or nothing, under the cache path, and nobody at work. */
  function Initial(found: Option<Bytes>): State {
    match found
    case None => State(Fs(map[], 0, None, map[]), map[])
    case Some(b) => State(Fs(map[0 := b], 1, Some(0), map[]), map[])
  }

  function Origin(found: Option<Bytes>): Option<(Ino, Bytes)> {
    match found case None => None case Some(b) => Some((0, b))
  }

  /** What is under the cache path. */
  function Cached(s: State): Option<Bytes> {
    if s.fs.cache.Some? && s.fs.cache.value in s.fs.files then Some(s.fs.files[s.fs.cache.value]) else None
  }

  /** The cache is safe in every interleaving: at every moment the cache path holds nothing, what
      was found there, or bytes that verify, whole; and what a call returns verifies. */
  lemma CacheSafe(u: Setup, found: Option<Bytes>, schedule: seq<Action>, n: nat)
    requires UniqueNames(u) && n <= |schedule|
    ensures var s := Run(u, Initial(found), schedule[..n]);
            && (s.fs.cache.Some? ==> Cached(s).Some? && (u.verify(Cached(s).value) || Cached(s) == found))
            && forall c :: c in s.calls && s.calls[c].Done? && s.calls[c].outcome.Ok? ==> u.verify(s.calls[c].outcome.value)
  {
    RunSound(u, Initial(found), Origin(found), schedule[..n]);
    var s := Run(u, Initial(found), schedule[..n]);
    forall c | c in s.calls && s.calls[c].Done? && s.calls[c].outcome.Ok?
      ensures u.verify(s.calls[c].outcome.value)
    {
      assert CallSound(u, s.fs, Origin(found), u.tempName(c), s.calls[c]);
    }
  }

  /** Nobody reads a mixture: what a call has read to the end is the whole content of one file,
      the one found in the beginning or one that verifies. */
  lemma ReadsAreWhole(u: Setup, found: Option<Bytes>, schedule: seq<Action>, c: nat, op: Op)
    requires UniqueNames(u)
    requires var s := Run(u, Initial(found), schedule); c in s.calls && s.calls[c].Reading?
    ensures var s := Run(u, Initial(found), schedule);
            var k := Next(u, s, Step(c, op)).calls[c];
            k.Checking? ==> u.verify(k.bytes) || found == Some(k.bytes)
  {
    RunSound(u, Initial(found), Origin(found), schedule);
    var s := Run(u, Initial(found), schedule);
    ReadIsWhole(u, s.fs, found, u.tempName(c), s.calls[c], op);
  }

  lemma ReadIsWhole(u: Setup, fs: Fs, found: Option<Bytes>, name: nat, k: Phase, op: Op)
    requires k.Reading? && CallSound(u, fs, Origin(found), name, k)
    ensures var k' := Act(u, fs, name, k, op).1; k'.Checking? ==> u.verify(k'.bytes) || found == Some(k'.bytes)
  {
    assert |k.got| == |fs.files[k.ino]| ==> k.got == fs.files[k.ino];
  }

  // ---- Healing ------------------------------------------------------------------------------------

  ghost predicate Healed(u: Setup, s: State) {
    s.fs.cache.Some? ==> Cached(s).Some? && u.verify(Cached(s).value)
  }

  lemma StepKeepsHealed(u: Setup, s: State, origin: Option<(Ino, Bytes)>, a: Action)
    requires UniqueNames(u) && Sound(u, s, origin) && Healed(u, s)
    ensures Healed(u, Next(u, s, a))
  {
    StepSound(u, s, origin, a);
    if a.Step? && a.call in s.calls {
      assert CallSound(u, s.fs, origin, u.tempName(a.call), s.calls[a.call]);
      ActSound(u, s.fs, origin, u.tempName(a.call), s.calls[a.call], a.op);
    }
  }

  /** Corruption does not come back: once the path holds nothing or bytes that verify, it never
      again holds any that do not, though a late self-heal may still take a good file away. */
  lemma {:induction false} HealedForGood(u: Setup, s: State, origin: Option<(Ino, Bytes)>, schedule: seq<Action>)
    requires UniqueNames(u) && Sound(u, s, origin) && Healed(u, s)
    ensures Healed(u, Run(u, s, schedule))
  {
    if schedule != [] {
      var init := schedule[..|schedule| - 1];
      HealedForGood(u, s, origin, init);
      RunSound(u, s, origin, init);
      StepKeepsHealed(u, Run(u, s, init), origin, schedule[|schedule| - 1]);
    }
  }

  /** Nothing this call does to the cached file fails, and it is not killed. */
  ghost predicate Unhindered(a: Action, c: nat) {
    a.call == c ==> !a.Kill? && (a.Step? ==> !a.op.fault)
  }

  /** How far a call has come with healing: until it has read a corrupt file and unlinked the
      path, the path may be corrupt; afterwards it is not. */
  ghost predicate Heals(u: Setup, s: State, k: Phase) {
    match k
    case Opening => true
    case Reading(i, _) => Healed(u, s) || (i in s.fs.files && !u.verify(s.fs.files[i]))
    case Checking(b) => Healed(u, s) || !u.verify(b)
    case Healing => true
    case _ => Healed(u, s)
  }

  lemma OwnStepHeals(u: Setup, s: State, origin: Option<(Ino, Bytes)>, c: nat, op: Op)
    requires UniqueNames(u) && Sound(u, s, origin) && c in s.calls && Heals(u, s, s.calls[c]) && !op.fault
    ensures Heals(u, Next(u, s, Step(c, op)), Next(u, s, Step(c, op)).calls[c])
  {
    var k, t := s.calls[c], Next(u, s, Step(c, op));
    assert CallSound(u, s.fs, origin, u.tempName(c), k);
    if Healed(u, s) {
      StepKeepsHealed(u, s, origin, Step(c, op));
    } else if k.Reading? && |k.got| == |s.fs.files[k.ino]| {
      assert k.got == s.fs.files[k.ino];
    }
  }

  lemma OtherStepHeals(u: Setup, s: State, origin: Option<(Ino, Bytes)>, a: Action, c: nat)
    requires UniqueNames(u) && Sound(u, s, origin) && c in s.calls && Heals(u, s, s.calls[c]) && a.call != c
    ensures c in Next(u, s, a).calls && Heals(u, Next(u, s, a), Next(u, s, a).calls[c])
  {
    assert CallSound(u, s.fs, origin, u.tempName(c), s.calls[c]);
    if Healed(u, s) {
      StepKeepsHealed(u, s, origin, a);
    } else if a.Step? && a.call in s.calls {
      ActSound(u, s.fs, origin, u.tempName(a.call), s.calls[a.call], a.op);
    }
  }

  lemma {:induction false} RunHeals(u: Setup, s: State, origin: Option<(Ino, Bytes)>, schedule: seq<Action>, c: nat)
    requires UniqueNames(u) && Sound(u, s, origin) && c in s.calls && Heals(u, s, s.calls[c])
    requires forall a :: a in schedule ==> Unhindered(a, c)
    ensures c in Run(u, s, schedule).calls && Heals(u, Run(u, s, schedule), Run(u, s, schedule).calls[c])
  {
    if schedule != [] {
      var init, last := schedule[..|schedule| - 1], schedule[|schedule| - 1];
      assert last in schedule && forall a :: a in init ==> a in schedule;
      RunHeals(u, s, origin, init, c);
      RunSound(u, s, origin, init);
      if last.call != c {
        OtherStepHeals(u, Run(u, s, init), origin, last, c);
      } else if last.Step? {
        OwnStepHeals(u, Run(u, s, init), origin, c, last.op);
      }
    }
  }

  /** One call heals the cache: whatever was found there and whatever the others do, once a call
      that was not hindered has ended, well or not, nothing corrupt is under the path any more. */
  lemma GetHeals(u: Setup, s: State, origin: Option<(Ino, Bytes)>, schedule: seq<Action>, c: nat, later: seq<Action>)
    requires UniqueNames(u) && Sound(u, s, origin) && c in s.calls && s.calls[c].Opening?
    requires forall a :: a in schedule ==> Unhindered(a, c)
    requires c in Run(u, s, schedule).calls && Run(u, s, schedule).calls[c].Done?
    ensures Healed(u, Run(u, Run(u, s, schedule), later))
  {
    RunHeals(u, s, origin, schedule, c);
    RunSound(u, s, origin, schedule);
    HealedForGood(u, Run(u, s, schedule), origin, later);
  }

  /** When a call puts its file in place, the path holds the whole of what it fetched. */
  lemma ReplaceCaches(u: Setup, s: State, origin: Option<(Ino, Bytes)>, c: nat, op: Op)
    requires Sound(u, s, origin) && c in s.calls && s.calls[c].Replacing? && !op.fault
    ensures var t := Next(u, s, Step(c, op));
            Cached(t) == Some(s.calls[c].bytes) && c in t.calls && t.calls[c] == Done(Ok(s.calls[c].bytes))
  {
    assert CallSound(u, s.fs, origin, u.tempName(c), s.calls[c]);
  }

  // ---- Outcomes -------------------------------------------------------------------------------------

  /** The server answers this call with the pinned bytes, and the cache directory can be made. */
  ghost predicate Served(u: Setup, a: Action, c: nat) {
    a.call == c ==>
      && !a.Kill?
      && (a.Step? ==> && !a.op.noDir && a.op.answer.Response? && u.verify(a.op.answer.body)
                      && (a.op.answer.status.Some? ==> a.op.answer.status.value < 400))
  }

  /** The cache is no reason to fail: whatever is under the path, whatever fails of reading,
      unlinking and writing, and whatever the others do, a call that is served returns. */
  lemma {:induction false} ServedCallsReturn(u: Setup, s: State, schedule: seq<Action>, c: nat)
    requires c in s.calls && s.calls[c].Opening?
    requires forall a :: a in schedule ==> Served(u, a, c)
    ensures c in Run(u, s, schedule).calls
    ensures var k := Run(u, s, schedule).calls[c]; !k.Killed? && (k.Done? ==> k.outcome.Ok?)
  {
    if schedule != [] {
      var init, last := schedule[..|schedule| - 1], schedule[|schedule| - 1];
      assert last in schedule && forall a :: a in init ==> a in schedule;
      ServedCallsReturn(u, s, init, c);
      ServedStep(u, Run(u, s, init), last, c);
    }
  }

  lemma ServedStep(u: Setup, s: State, a: Action, c: nat)
    requires c in s.calls && !s.calls[c].Killed? && (s.calls[c].Done? ==> s.calls[c].outcome.Ok?) && Served(u, a, c)
    ensures c in Next(u, s, a).calls
    ensures var k := Next(u, s, a).calls[c]; !k.Killed? && (k.Done? ==> k.outcome.Ok?)
  {
  }

  // ---- Progress -------------------------------------------------------------------------------------

  predicate SmallPhase(k: Phase, limit: nat) {
    match k
    case Reading(_, got) => |got| <= limit
    case Checking(b) => |b| <= limit
    case MakingDir(b) => |b| <= limit
    case Creating(b) => |b| <= limit
    case Writing(b, _, n) => n <= |b| <= limit
    case Replacing(b, _) => |b| <= limit
    case CleaningUp(b) => |b| <= limit
    case _ => true
  }

  predicate SmallFiles(fs: Fs, limit: nat) {
    forall i :: i in fs.files ==> |fs.files[i]| <= limit
  }

  /** Nothing on disk or on its way is longer than that. */
  predicate Small(s: State, limit: nat) {
    SmallFiles(s.fs, limit) && forall c :: c in s.calls ==> SmallPhase(s.calls[c], limit)
  }

  predicate SmallOp(op: Op, limit: nat) {
    op.answer.Response? ==> |op.answer.body| <= limit
  }

  predicate SmallAnswers(schedule: seq<Action>, limit: nat) {
    forall a :: a in schedule && a.Step? ==> SmallOp(a.op, limit)
  }

  /** How many operations a call can still do, where every one of its reads and writes moves a
      single byte. */
  function Rank(k: Phase, limit: nat): nat
    requires SmallPhase(k, limit)
  {
    match k
    case Opening => 2 * limit + 10
    case Reading(_, got) => 2 * limit + 9 - |got|
    case Checking(_) => limit + 8
    case Healing => limit + 7
    case Fetching => limit + 6
    case MakingDir(_) => limit + 5
    case Creating(_) => limit + 4
    case Writing(_, _, n) => limit + 3 - n
    case Replacing(_, _) => 2
    case CleaningUp(_) => 1
    case _ => 0
  }

  lemma ReadRank(u: Setup, fs: Fs, k: Phase, op: Op, limit: nat)
    requires SmallFiles(fs, limit) && SmallPhase(k, limit)
    ensures var (later, k') := ReadStep(u, fs, k, op);
            SmallFiles(later, limit) && SmallPhase(k', limit)
            && (k.Opening? || k.Reading? || k.Checking? || k.Healing? ==> Rank(k', limit) < Rank(k, limit))
  {
  }

  lemma WriteRank(fs: Fs, name: nat, k: Phase, op: Op, limit: nat)
    requires SmallFiles(fs, limit) && SmallPhase(k, limit) && (k.Creating? || k.Writing? || k.Replacing? || k.CleaningUp?)
    ensures var (later, k') := WriteStep(fs, name, k, op);
            SmallFiles(later, limit) && SmallPhase(k', limit) && Rank(k', limit) < Rank(k, limit)
  {
  }

  lemma ActRank(u: Setup, fs: Fs, name: nat, k: Phase, op: Op, limit: nat)
    requires SmallFiles(fs, limit) && SmallPhase(k, limit) && SmallOp(op, limit)
    ensures var (later, k') := Act(u, fs, name, k, op);
            SmallFiles(later, limit) && SmallPhase(k', limit)
            && (Rank(k', limit) < Rank(k, limit) || Rank(k', limit) == 0)
  {
    if k.Creating? || k.Writing? || k.Replacing? || k.CleaningUp? {
      WriteRank(fs, name, k, op, limit);
    } else if !k.Fetching? && !k.MakingDir? {
      ReadRank(u, fs, k, op, limit);
    }
  }

  function OwnSteps(schedule: seq<Action>, c: nat): nat {
    if schedule == [] then 0
    else
      var last := schedule[|schedule| - 1];
      OwnSteps(schedule[..|schedule| - 1], c) + (if last.Step? && last.call == c then 1 else 0)
  }

  lemma NextRank(u: Setup, s: State, a: Action, c: nat, limit: nat)
    requires c in s.calls && Small(s, limit) && (a.Step? ==> SmallOp(a.op, limit))
    ensures c in Next(u, s, a).calls && Small(Next(u, s, a), limit)
    ensures var r, r' := Rank(s.calls[c], limit), Rank(Next(u, s, a).calls[c], limit);
            r' == 0 || r' <= r - (if a.Step? && a.call == c then 1 else 0)
  {
    if a.Step? && a.call in s.calls {
      ActRank(u, s.fs, u.tempName(a.call), s.calls[a.call], a.op, limit);
    }
  }

  lemma {:induction false} RankFalls(u: Setup, s: State, schedule: seq<Action>, c: nat, limit: nat)
    requires c in s.calls && Small(s, limit) && SmallAnswers(schedule, limit)
    ensures c in Run(u, s, schedule).calls && Small(Run(u, s, schedule), limit)
    ensures var r, r' := Rank(s.calls[c], limit), Rank(Run(u, s, schedule).calls[c], limit);
            r' == 0 || r' <= r - OwnSteps(schedule, c)
  {
    if schedule != [] {
      var init, last := schedule[..|schedule| - 1], schedule[|schedule| - 1];
      assert last in schedule && forall a :: a in init ==> a in schedule;
      RankFalls(u, s, init, c, limit);
      NextRank(u, Run(u, s, init), last, c, limit);
    }
  }

  /** Nobody waits for anybody: where no file and no answer is longer than `limit`, so many steps
      of its own end a call, whatever the others do in between. */
  lemma GetEnds(u: Setup, s: State, schedule: seq<Action>, c: nat, limit: nat)
    requires Small(s, limit) && SmallAnswers(schedule, limit)
    requires c in s.calls && OwnSteps(schedule, c) >= 2 * limit + 10
    ensures c in Run(u, s, schedule).calls
    ensures Run(u, s, schedule).calls[c].Done? || Run(u, s, schedule).calls[c].Killed?
  {
    RankFalls(u, s, schedule, c, limit);
  }

  /** So a call that is served does return, and well. */
  lemma ServedCallsEnd(u: Setup, s: State, schedule: seq<Action>, c: nat, limit: nat)
    requires Small(s, limit) && SmallAnswers(schedule, limit)
    requires c in s.calls && s.calls[c].Opening? && OwnSteps(schedule, c) >= 2 * limit + 10
    requires forall a :: a in schedule ==> Served(u, a, c)
    ensures c in Run(u, s, schedule).calls
    ensures Run(u, s, schedule).calls[c].Done? && Run(u, s, schedule).calls[c].outcome.Ok?
  {
    GetEnds(u, s, schedule, c, limit);
    ServedCallsReturn(u, s, schedule, c);
  }

  /** And the other way about: an error is the server's doing or the directory's. What is
      fetched and does not verify is never healed over. */
  lemma ErrorCauses(u: Setup, s: State, a: Action, c: nat, e: GetError)
    requires c in s.calls && !s.calls[c].Done?
    requires c in Next(u, s, a).calls && Next(u, s, a).calls[c] == Done(Err(e))
    ensures a.Step? && a.call == c && Next(u, s, a).fs == s.fs
    ensures match e
            case OsError => s.calls[c].MakingDir? && a.op.noDir
            case HashMismatch => s.calls[c].Fetching? && a.op.answer.Response? && !u.verify(a.op.answer.body)
            case FetchFailed =>
              && s.calls[c].Fetching?
              && (a.op.answer.Response? ==> a.op.answer.status.Some? && a.op.answer.status.value >= 400)
  {
  }

  // ---- Why the temporary names are unique ----------------------------------------------------------

  lemma Append1(u: Setup, s: State, schedule: seq<Action>, a: Action)
    ensures Run(u, s, schedule + [a]) == Next(u, Run(u, s, schedule), a)
  {
    assert (schedule + [a])[..|schedule|] == schedule;
  }

  // A call that misses and is served, as far as it takes to have the temporary file open.
  function ToWriting(c: nat, op: Op): seq<Action> {
    [Start(c)] + [Step(c, op)] + [Step(c, op)] + [Step(c, op)] + [Step(c, op)]
  }

  function ServedOp(body: Bytes): Op {
    Op(false, false, |body|, Response(None, body))
  }

  lemma RunAppend5(u: Setup, s: State, first: seq<Action>, c: nat, op: Op)
    ensures Run(u, s, first + ToWriting(c, op)) ==
            var a := Step(c, op);
            Next(u, Next(u, Next(u, Next(u, Next(u, Run(u, s, first), Start(c)), a), a), a), a)
  {
    var a := Step(c, op);
    Append1(u, s, first, Start(c));
    Append1(u, s, first + [Start(c)], a);
    Append1(u, s, first + [Start(c)] + [a], a);
    Append1(u, s, first + [Start(c)] + [a] + [a], a);
    Append1(u, s, first + [Start(c)] + [a] + [a] + [a], a);
    assert first + ToWriting(c, op) == first + [Start(c)] + [a] + [a] + [a] + [a];
  }

  lemma ReachesWriting(u: Setup, s: State, c: nat, body: Bytes)
    requires c !in s.calls && s.fs.cache.None? && u.verify(body)
    ensures var op := ServedOp(body);
            var a := Step(c, op);
            var t := Next(u, Next(u, Next(u, Next(u, Next(u, s, Start(c)), a), a), a), a);
            var known := u.tempName(c) in s.fs.temps;
            var i := if known then s.fs.temps[u.tempName(c)] else s.fs.next;
            && t.calls == s.calls[c := Writing(body, i, 0)]
            && t.fs == s.fs.(files := s.fs.files[i := []], next := s.fs.next + (if known then 0 else 1),
                             temps := s.fs.temps[u.tempName(c) := i])
  {
    var op := ServedOp(body);
    var s1 := Next(u, s, Start(c));
    var s2 := Next(u, s1, Step(c, op));
    assert s2 == s.(calls := s.calls[c := Fetching]);
    var s3 := Next(u, s2, Step(c, op));
    assert s3 == s.(calls := s.calls[c := MakingDir(body)]);
    var s4 := Next(u, s3, Step(c, op));
    assert s4 == s.(calls := s.calls[c := Creating(body)]);
  }

  lemma WritesWhole(u: Setup, s: State, c: nat, body: Bytes)
    requires body != [] && s == State(Fs(map[0 := []], 1, None, map[u.tempName(c) := 0]), map[c := Writing(body, 0, 0)])
    ensures Next(u, s, Step(c, ServedOp(body))) ==
            State(Fs(map[0 := body], 1, None, map[u.tempName(c) := 0]), map[c := Writing(body, 0, |body|)])
  {
    assert WriteAt([], 0, body[0..|body|]) == body;
  }

  // The first call has filled its file and is about to put it in place.
  lemma FirstIsWritten(u: Setup, c: nat, body: Bytes)
    requires u.verify(body) && body != []
    ensures var op := ServedOp(body);
            var schedule := ToWriting(c, op) + [Step(c, op)] + [Step(c, op)];
            Run(u, Initial(None), schedule) ==
            State(Fs(map[0 := body], 1, None, map[u.tempName(c) := 0]), map[c := Replacing(body, 0)])
  {
    var op, s0 := ServedOp(body), Initial(None);
    var first := ToWriting(c, op);
    RunAppend5(u, s0, [], c, op);
    assert [] + first == first;
    ReachesWriting(u, s0, c, body);
    Append1(u, s0, first, Step(c, op));
    Append1(u, s0, first + [Step(c, op)], Step(c, op));
    WritesWhole(u, Run(u, s0, first), c, body);
  }

  // The second opens the same file, which empties it, and the first puts it in place.
  lemma SecondTruncates(u: Setup, s: State, c: nat, d: nat, body: Bytes, first: seq<Action>)
    requires c != d && u.tempName(c) == u.tempName(d) && u.verify(body)
    requires Run(u, Initial(None), first) == s
    requires s == State(Fs(map[0 := body], 1, None, map[u.tempName(c) := 0]), map[c := Replacing(body, 0)])
    ensures var t := Run(u, Initial(None), first + ToWriting(d, ServedOp(body)) + [Step(c, ServedOp(body))]);
            Cached(t) == Some([]) && c in t.calls && t.calls[c] == Done(Ok(body))
  {
    var op := ServedOp(body);
    RunAppend5(u, Initial(None), first, d, op);
    ReachesWriting(u, s, d, body);
    Append1(u, Initial(None), first + ToWriting(d, op), Step(c, op));
  }

  /** Two calls that share a temporary name can leave half an artifact under the cache path,
      with nothing failing and an honest server: one truncates what the other puts in place. */
  lemma SharedNamesTear(u: Setup, c: nat, d: nat, body: Bytes)
    requires c != d && u.tempName(c) == u.tempName(d)
    requires u.verify(body) && !u.verify([])
    ensures exists schedule: seq<Action> ::
              var s := Run(u, Initial(None), schedule);
              Cached(s).Some? && !u.verify(Cached(s).value) && c in s.calls && s.calls[c] == Done(Ok(body))
  {
    var op := ServedOp(body);
    FirstIsWritten(u, c, body);
    var first := ToWriting(c, op) + [Step(c, op)] + [Step(c, op)];
    SecondTruncates(u, Run(u, Initial(None), first), c, d, body, first);
  }

  ghost predicate AlwaysSafe(u: Setup) {
    forall schedule: seq<Action> ::
      var s := Run(u, Initial(None), schedule); Cached(s).Some? ==> u.verify(Cached(s).value)
  }

  /** So, with a pin the empty file does not meet, the cache is safe in all runs exactly if no
      two calls ever share a temporary name. */
  lemma SafeExactlyIfNamesAreUnique(u: Setup, body: Bytes)
    requires u.verify(body) && !u.verify([])
    ensures AlwaysSafe(u) <==> UniqueNames(u)
  {
    if UniqueNames(u) {
      forall schedule: seq<Action>
        ensures var s := Run(u, Initial(None), schedule); Cached(s).Some? ==> u.verify(Cached(s).value)
      {
        CacheSafe(u, None, schedule, |schedule|);
        assert schedule[..|schedule|] == schedule;
      }
    } else {
      var c, d :| u.tempName(c) == u.tempName(d) && c != d;
      SharedNamesTear(u, c, d, body);
    }
  }
}
