// The store's methods over the cache, one system call after another with anything the other
// processes do in between.
module ArtifactStore {
  import opened Common
  import opened ArtifactCache

  // What happens around one operation: what the others do first, and what the world settles.
  datatype Turn = Turn(meanwhile: seq<Action>, op: Op)

  ghost predicate OfOthers(schedule: seq<Action>, c: nat) {
    forall a :: a in schedule ==> a.call != c
  }

  lemma {:induction false} RunAppend(u: Setup, s: State, first: seq<Action>, rest: seq<Action>)
    ensures Run(u, s, first + rest) == Run(u, Run(u, s, first), rest)
  {
    if rest == [] {
      assert first + rest == first;
    } else {
      var n := |rest| - 1;
      assert (first + rest)[..|first| + n] == first + rest[..n];
      RunAppend(u, s, first, rest[..n]);
    }
  }

  ghost predicate AllOfOthers(turns: nat -> Turn, c: nat) {
    forall i :: OfOthers(turns(i).meanwhile, c)
  }

  /** While the others are at work a call stands where it stood, and a file it is reading stays
      as it is. */
  lemma {:induction false} OthersLeaveCall(u: Setup, s: State, origin: Option<(Ino, Bytes)>, schedule: seq<Action>, c: nat)
    requires UniqueNames(u) && Sound(u, s, origin) && c in s.calls && OfOthers(schedule, c)
    ensures var t := Run(u, s, schedule);
            && c in t.calls && t.calls[c] == s.calls[c]
            && (s.calls[c].Reading? ==> var i := s.calls[c].ino;
                  i in s.fs.files && i in t.fs.files && t.fs.files[i] == s.fs.files[i])
  {
    if schedule == [] {
      assert CallSound(u, s.fs, origin, u.tempName(c), s.calls[c]);
    } else {
      var init, last := schedule[..|schedule| - 1], schedule[|schedule| - 1];
      assert last in schedule && forall a :: a in init ==> a in schedule;
      OthersLeaveCall(u, s, origin, init, c);
      RunSound(u, s, origin, init);
      OtherLeavesFile(u, Run(u, s, init), origin, last, c);
    }
  }

  lemma OtherLeavesFile(u: Setup, s: State, origin: Option<(Ino, Bytes)>, a: Action, c: nat)
    requires UniqueNames(u) && Sound(u, s, origin) && c in s.calls && a.call != c
    ensures var t := Next(u, s, a);
            && c in t.calls && t.calls[c] == s.calls[c]
            && (s.calls[c].Reading? ==> var i := s.calls[c].ino;
                  i in s.fs.files && i in t.fs.files && t.fs.files[i] == s.fs.files[i])
  {
    assert CallSound(u, s.fs, origin, u.tempName(c), s.calls[c]);
    if a.Step? && a.call in s.calls {
      ActSound(u, s.fs, origin, u.tempName(a.call), s.calls[a.call], a.op);
    }
  }

  /** At some moment of the run since the first `from` actions these bytes were under the path. */
  ghost predicate CachedSince(u: Setup, start: State, trace: seq<Action>, from: nat, bytes: Bytes) {
    exists n :: from < n <= |trace| && Cached(Run(u, start, trace[..n])) == Some(bytes)
  }

  lemma StillCachedSince(u: Setup, start: State, trace: seq<Action>, longer: seq<Action>, from: nat, bytes: Bytes)
    requires CachedSince(u, start, trace, from, bytes) && trace <= longer
    ensures forall m: nat :: m <= from ==> CachedSince(u, start, longer, m, bytes)
  {
    var n :| from < n <= |trace| && Cached(Run(u, start, trace[..n])) == Some(bytes);
    assert longer[..n] == trace[..n];
  }

  class HttpArtifactStore {
    const setup: Setup
    var state: State
    ghost const origin: Option<(Ino, Bytes)>
    ghost const start: State
    ghost var trace: seq<Action>

    constructor (setup: Setup, found: Option<Bytes>)
      requires UniqueNames(setup)
      ensures this.setup == setup && state == Initial(found) && start == state && trace == []
      ensures Valid()
    {
      this.setup := setup;
      state := Initial(found);
      origin := Origin(found);
      start := Initial(found);
      trace := [];
    }

    /** Everything so far was one schedule, from a sound state. */
    ghost predicate Valid()
      reads this
    {
      UniqueNames(setup) && Sound(setup, state, origin) && state == Run(setup, start, trace)
    }

    ghost predicate Stands(c: nat, k: Phase)
      reads this
    {
      Valid() && c in state.calls && state.calls[c] == k
    }

    // The others get their turn.
    method Wait(c: nat, turn: Turn, k: Phase)
      requires Stands(c, k) && OfOthers(turn.meanwhile, c)
      modifies this
      ensures Stands(c, k) && old(trace) <= trace
      ensures k.Reading? ==> var i := k.ino;
                i in old(state.fs.files) && i in state.fs.files && state.fs.files[i] == old(state.fs.files[i])
    {
      OthersLeaveCall(setup, state, origin, turn.meanwhile, c);
      RunAppend(setup, start, trace, turn.meanwhile);
      RunSound(setup, state, origin, turn.meanwhile);
      state := Run(setup, state, turn.meanwhile);
      trace := trace + turn.meanwhile;
    }

    // The call has done one operation: these are the files now, and this is where it stands.
    method Settle(c: nat, fs: Fs, k: Phase, op: Op)
      requires Valid() && c in state.calls
      requires Act(setup, state.fs, setup.tempName(c), state.calls[c], op) == (fs, k)
      modifies this
      ensures Stands(c, k) && old(trace) < trace && state.fs == fs
    {
      Append1(setup, start, trace, Step(c, op));
      StepSound(setup, state, origin, Step(c, op));
      state := State(fs, state.calls[c := k]);
      trace := trace + [Step(c, op)];
    }

    // One read() of an open file: more bytes, or the end, or an error.
    method ReadChunk(c: nat, turn: Turn, ino: Ino, got: Bytes) returns (k: Phase)
      requires Stands(c, Reading(ino, got)) && OfOthers(turn.meanwhile, c)
      modifies this
      ensures Stands(c, k) && old(trace) <= trace
      ensures k == Fetching || k == Checking(got) || (k.Reading? && k.ino == ino && |got| < |k.got|)
      ensures k.Checking? ==> ino in old(state.fs.files) && got == old(state.fs.files[ino])
      ensures k.Reading? ==> ino in old(state.fs.files) && ino in state.fs.files
                             && state.fs.files[ino] == old(state.fs.files[ino]) && |k.got| <= |state.fs.files[ino]|
    {
      Wait(c, turn, Reading(ino, got));
      k := Fetching;
      assert got <= state.fs.files[ino] by {
        assert CallSound(setup, state.fs, origin, setup.tempName(c), Reading(ino, got));
      }
      if !turn.op.fault && |got| <= |state.fs.files[ino]| {
        if |got| == |state.fs.files[ino]| {
          k := Checking(got);
        } else {
          k := Reading(ino, state.fs.files[ino][..|got| + Portion(turn.op.count, |state.fs.files[ino]| - |got|)]);
        }
      }
      Settle(c, state.fs, k, turn.op);
    }

    // open(cache_path, "rb"), or an error
    method Open(c: nat, turn: Turn) returns (k: Phase)
      requires Stands(c, Opening) && OfOthers(turn.meanwhile, c)
      modifies this
      ensures Stands(c, k) && old(trace) < trace && (k.Reading? || k.Fetching?)
      ensures k.Reading? ==> k.ino in state.fs.files
                             && CachedSince(setup, start, trace, |old(trace)|, state.fs.files[k.ino])
    {
      Wait(c, turn, Opening);
      k := if turn.op.fault || state.fs.cache.None? then Fetching else Reading(state.fs.cache.value, []);
      assert |old(trace)| <= |trace|;
      Settle(c, state.fs, k, turn.op);
      CachedNow(|old(trace)|);
    }

    // What is under the path at this moment was so within the run.
    lemma CachedNow(from: nat)
      requires Valid() && from < |trace|
      ensures Cached(state).Some? ==> CachedSince(setup, start, trace, from, Cached(state).value)
      ensures state.fs.cache.Some? ==> state.fs.cache.value in state.fs.files
    {
      assert trace[..|trace|] == trace;
    }

    // cache_path.read_bytes(), or no bytes at all if it raises.
    method ReadBytes(c: nat, turns: nat -> Turn) returns (r: Option<Bytes>)
      requires Stands(c, Opening) && AllOfOthers(turns, c)
      modifies this
      ensures Stands(c, if r.Some? then Checking(r.value) else Fetching) && old(trace) <= trace
      ensures r.Some? ==> CachedSince(setup, start, trace, |old(trace)|, r.value)
    {
      var k := Open(c, turns(0));
      ghost var opening := trace;
      k := ReadRest(c, turns, k);
      r := None;
      if k.Checking? {
        r := Some(k.bytes);
        StillCachedSince(setup, start, opening, trace, |old(trace)|, k.bytes);
      }
    }

    method ReadRest(c: nat, turns: nat -> Turn, first: Phase) returns (k: Phase)
      requires Stands(c, first) && (first.Reading? || first.Fetching?)
      requires AllOfOthers(turns, c)
      modifies this
      ensures Stands(c, k) && (k.Checking? || k.Fetching?) && old(trace) <= trace
      ensures k.Checking? ==> first.Reading? && first.ino in old(state.fs.files) && k.bytes == old(state.fs.files[first.ino])
    {
      k := first;
      var n := 1;
      assert k.Reading? ==> k.ino in state.fs.files && |k.got| <= |state.fs.files[k.ino]| by {
        assert CallSound(setup, state.fs, origin, setup.tempName(c), k);
      }
      while k.Reading?
        invariant Stands(c, k) && old(trace) <= trace && (k.Reading? || k.Checking? || k.Fetching?)
        invariant k.Reading? ==> k.ino in state.fs.files && |k.got| <= |state.fs.files[k.ino]|
        invariant k.Reading? ==> first.Reading? && k.ino == first.ino && k.ino in old(state.fs.files)
        invariant k.Reading? ==> state.fs.files[k.ino] == old(state.fs.files[first.ino])
        invariant k.Checking? ==> first.Reading? && first.ino in old(state.fs.files) && k.bytes == old(state.fs.files[first.ino])
        decreases if k.Reading? then |state.fs.files[k.ino]| - |k.got| + 1 else 0
      {
        k := ReadChunk(c, turns(n), k.ino, k.got);
        n := n + 1;
      }
    }

    /** read_verified_or_self_heal: bytes that verify, or a miss; what does not verify is
        unlinked on the way to the miss. */
    method ReadVerifiedOrSelfHeal(c: nat, turns: nat -> Turn, heal: nat -> Turn) returns (r: Option<Bytes>)
      requires Stands(c, Opening)
      requires AllOfOthers(turns, c) && AllOfOthers(heal, c)
      modifies this
      ensures Stands(c, if r.Some? then Done(Ok(r.value)) else Fetching) && old(trace) <= trace
      ensures r.Some? ==> setup.verify(r.value) && CachedSince(setup, start, trace, |old(trace)|, r.value)
    {
      r := ReadBytes(c, turns);
      if r.None? {
        return;
      }
      ghost var before := trace;
      VerifyCached(c, r.value, heal(0));
      StillCachedSince(setup, start, before, trace, |old(trace)|, r.value);
      if !setup.verify(r.value) {
        r := None;
        Unlink(c, heal(1));
      }
    }

    method VerifyCached(c: nat, bytes: Bytes, turn: Turn)
      requires Stands(c, Checking(bytes)) && OfOthers(turn.meanwhile, c)
      modifies this
      ensures Stands(c, if setup.verify(bytes) then Done(Ok(bytes)) else Healing) && old(trace) <= trace
    {
      Wait(c, turn, Checking(bytes));
      Settle(c, state.fs, if setup.verify(bytes) then Done(Ok(bytes)) else Healing, turn.op);
    }

    // cache_path.unlink(missing_ok=True), errors suppressed
    method Unlink(c: nat, turn: Turn)
      requires Stands(c, Healing) && OfOthers(turn.meanwhile, c)
      modifies this
      ensures Stands(c, Fetching) && old(trace) <= trace
    {
      Wait(c, turn, Healing);
      var fs := state.fs;
      if !turn.op.fault {
        fs := fs.(cache := None);
      }
      Settle(c, fs, Fetching, turn.op);
    }

    // open(tmp, "wb"), or an error.
    method CreateTemp(c: nat, data: Bytes, turn: Turn) returns (k: Phase)
      requires Stands(c, Creating(data)) && OfOthers(turn.meanwhile, c)
      modifies this
      ensures Stands(c, k) && old(trace) <= trace
      ensures k == CleaningUp(data) || (k.Writing? && k.bytes == data && k.written == 0)
    {
      Wait(c, turn, Creating(data));
      var name := setup.tempName(c);
      var fs := state.fs;
      if turn.op.fault {
        k := CleaningUp(data);
      } else if name in fs.temps {
        k := Writing(data, fs.temps[name], 0);
        fs := fs.(files := fs.files[fs.temps[name] := []]);
      } else {
        k := Writing(data, fs.next, 0);
        fs := fs.(files := fs.files[fs.next := []], next := fs.next + 1, temps := fs.temps[name := fs.next]);
      }
      Settle(c, fs, k, turn.op);
    }

    // One write() of what is left, or the end of it, or an error.
    method WriteChunk(c: nat, data: Bytes, ino: Ino, n: nat, turn: Turn) returns (k: Phase)
      requires Stands(c, Writing(data, ino, n)) && OfOthers(turn.meanwhile, c)
      modifies this
      ensures Stands(c, k) && old(trace) <= trace
      ensures k == CleaningUp(data) || (k.Replacing? && k.bytes == data)
              || (k.Writing? && k.bytes == data && n < k.written <= |data|)
    {
      Wait(c, turn, Writing(data, ino, n));
      k := CleaningUp(data);
      var fs := state.fs;
      if !turn.op.fault && ino in fs.files && n <= |data| {
        if n == |data| {
          k := Replacing(data, ino);
        } else {
          var m := n + Portion(turn.op.count, |data| - n);
          k := Writing(data, ino, m);
          fs := fs.(files := fs.files[ino := WriteAt(fs.files[ino], n, data[n..m])]);
        }
      }
      Settle(c, fs, k, turn.op);
    }

    // os.replace(tmp, path)
    method Replace(c: nat, data: Bytes, ino: Ino, turn: Turn) returns (k: Phase)
      requires Stands(c, Replacing(data, ino)) && OfOthers(turn.meanwhile, c)
      modifies this
      ensures Stands(c, k) && old(trace) <= trace && (k == CleaningUp(data) || k == Done(Ok(data)))
    {
      Wait(c, turn, Replacing(data, ino));
      var name, fs := setup.tempName(c), state.fs;
      if turn.op.fault || name !in fs.temps {
        k := CleaningUp(data);
      } else {
        k := Done(Ok(data));
        fs := fs.(cache := Some(fs.temps[name]), temps := fs.temps - {name});
      }
      Settle(c, fs, k, turn.op);
    }

    // tmp.unlink(missing_ok=True), errors suppressed
    method CleanUp(c: nat, data: Bytes, turn: Turn)
      requires Stands(c, CleaningUp(data)) && OfOthers(turn.meanwhile, c)
      modifies this
      ensures Stands(c, Done(Ok(data))) && old(trace) <= trace
    {
      Wait(c, turn, CleaningUp(data));
      var fs := state.fs;
      if !turn.op.fault {
        fs := fs.(temps := fs.temps - {setup.tempName(c)});
      }
      Settle(c, fs, Done(Ok(data)), turn.op);
    }

    // tmp.write_bytes(data), once the file is open.
    method WriteAll(c: nat, data: Bytes, first: Phase, turns: nat -> Turn) returns (k: Phase)
      requires Stands(c, first) && first.Writing? && first.bytes == data && first.written == 0
      requires AllOfOthers(turns, c)
      modifies this
      ensures Stands(c, k) && old(trace) <= trace && (k == CleaningUp(data) || (k.Replacing? && k.bytes == data))
    {
      k := first;
      var n := 0;
      while k.Writing?
        invariant Stands(c, k) && old(trace) <= trace
        invariant k == CleaningUp(data) || (k.Replacing? && k.bytes == data)
                  || (k.Writing? && k.bytes == data && k.written <= |data|)
        decreases if k.Writing? then |data| - k.written + 1 else 0
      {
        k := WriteChunk(c, data, k.ino, k.written, turns(n));
        n := n + 1;
      }
    }

    /** atomic_write_bytes, its errors suppressed as get() does: it ends well whatever fails. */
    method AtomicWriteBytes(c: nat, data: Bytes, turns: nat -> Turn, last: nat -> Turn)
      requires Stands(c, Creating(data))
      requires AllOfOthers(turns, c) && AllOfOthers(last, c)
      modifies this
      ensures Stands(c, Done(Ok(data))) && old(trace) <= trace
    {
      var k := CreateTemp(c, data, last(0));
      if k.Writing? {
        k := WriteAll(c, data, k, turns);
      }
      Finish(c, data, k, last);
    }

    // What is left to do once the file is written, or not.
    method Finish(c: nat, data: Bytes, first: Phase, last: nat -> Turn)
      requires Stands(c, first) && (first == CleaningUp(data) || (first.Replacing? && first.bytes == data))
      requires AllOfOthers(last, c)
      modifies this
      ensures Stands(c, Done(Ok(data))) && old(trace) <= trace
    {
      var k := first;
      if k.Replacing? {
        k := Replace(c, data, k.ino, last(1));
      }
      if k.CleaningUp? {
        CleanUp(c, data, last(2));
      }
    }

    // The fetch: what it ends in, or bytes that verify and are to be cached.
    method Fetch(c: nat, turn: Turn) returns (k: Phase)
      requires Stands(c, Fetching) && OfOthers(turn.meanwhile, c)
      modifies this
      ensures Stands(c, k) && old(trace) <= trace
      ensures k == FetchStep(setup, turn.op.answer)
    {
      Wait(c, turn, Fetching);
      match turn.op.answer {
        case TransportFailure =>
          k := Done(Err(FetchFailed));
        case Response(status, body) =>
          if status.Some? && status.value >= 400 {
            k := Done(Err(FetchFailed));
          } else if setup.verify(body) {
            k := MakingDir(body);
          } else {
            k := Done(Err(HashMismatch));
          }
      }
      Settle(c, state.fs, k, turn.op);
    }

    // A new call begins.
    method Begin(c: nat)
      requires Valid() && c !in state.calls
      modifies this
      ensures Stands(c, Opening) && trace == old(trace) + [Start(c)]
    {
      Append1(setup, start, trace, Start(c));
      StepSound(setup, state, origin, Start(c));
      state := state.(calls := state.calls[c := Opening]);
      trace := trace + [Start(c)];
    }

    /** get() is the machine's call: from beginning to end it is one schedule of operations, its
        own and other calls', and it returns or raises as the call ended there. What it returns
        verifies. On a hit it is the whole of what was under the cache path at some moment of the
        call; after a miss it is what the server sent. */
    method Get(c: nat, ins: nat -> Turn, heal: nat -> Turn, fetch: Turn, mkdir: Turn, outs: nat -> Turn, last: nat -> Turn)
      returns (r: Result<Bytes, GetError>, ghost hit: bool)
      requires Valid() && c !in state.calls
      requires AllOfOthers(ins, c) && AllOfOthers(heal, c) && AllOfOthers(outs, c) && AllOfOthers(last, c)
      requires OfOthers(fetch.meanwhile, c) && OfOthers(mkdir.meanwhile, c)
      modifies this
      ensures Stands(c, Done(r)) && old(trace) + [Start(c)] <= trace
      ensures r.Ok? ==> setup.verify(r.value)
      ensures !hit ==>
                var k := FetchStep(setup, fetch.op.answer);
                r == if k.Done? then k.outcome else if mkdir.op.noDir then Err(OsError) else Ok(k.bytes)
      ensures hit ==> r.Ok? && CachedSince(setup, start, trace, |old(trace)|, r.value)
    {
      Begin(c);
      ghost var begun := trace;
      var cached := ReadVerifiedOrSelfHeal(c, ins, heal);
      if cached.Some? {
        StillCachedSince(setup, start, trace, trace, |begun|, cached.value);
        return Ok(cached.value), true;
      }
      hit := false;
      r := FetchAndCache(c, fetch, mkdir, outs, last);
    }

    method FetchAndCache(c: nat, fetch: Turn, mkdir: Turn, outs: nat -> Turn, last: nat -> Turn)
      returns (r: Result<Bytes, GetError>)
      requires Stands(c, Fetching) && AllOfOthers(outs, c) && AllOfOthers(last, c)
      requires OfOthers(fetch.meanwhile, c) && OfOthers(mkdir.meanwhile, c)
      modifies this
      ensures Stands(c, Done(r)) && old(trace) <= trace
      ensures var k := FetchStep(setup, fetch.op.answer);
              r == if k.Done? then k.outcome else if mkdir.op.noDir then Err(OsError) else Ok(k.bytes)
      ensures r.Ok? ==> setup.verify(r.value)
    {
      var k := Fetch(c, fetch);
      if k.Done? {
        return k.outcome;
      }
      if mkdir.op.noDir {
        r := Err(OsError);
        MakeDir(c, k.bytes, mkdir);
      } else {
        r := Ok(k.bytes);
        MakeDir(c, k.bytes, mkdir);
        AtomicWriteBytes(c, k.bytes, outs, last);
      }
    }

    // self._cache_dir.mkdir(parents=True, exist_ok=True), which may raise
    method MakeDir(c: nat, bytes: Bytes, turn: Turn)
      requires Stands(c, MakingDir(bytes)) && OfOthers(turn.meanwhile, c)
      modifies this
      ensures Stands(c, if turn.op.noDir then Done(Err(OsError)) else Creating(bytes)) && old(trace) <= trace
    {
      Wait(c, turn, MakingDir(bytes));
      Settle(c, state.fs, if turn.op.noDir then Done(Err(OsError)) else Creating(bytes), turn.op);
    }
  }
}
