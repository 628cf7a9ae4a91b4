// Listing the store, and resolving a digest prefix against it while it grows.
module CasQuery {
  import opened Common
  import opened Cas
  import opened Order

  predicate Hidden(name: string) {
    name != "" && name[0] == '_'
  }

  /** The entries a scan of the store finds. */
  function Listed(d: Disk): set<Path> {
    set p | p in d.root && d.root[p].Dir? && !Hidden(p.0) && !Hidden(p.1)
  }

  predicate RenderedLeq(p: Path, q: Path) {
    !LexLess(CodePoints(Render(q)), CodePoints(Render(p)))
  }

  ghost predicate Sorted(ps: seq<Path>) {
    forall i, j :: 0 <= i < j < |ps| ==> RenderedLeq(ps[i], ps[j])
  }

  lemma RenderedLeqTransitive(p: Path, q: Path, r: Path)
    requires RenderedLeq(p, q) && RenderedLeq(q, r)
    ensures RenderedLeq(p, r)
  {
    var x, y, z := CodePoints(Render(p)), CodePoints(Render(q)), CodePoints(Render(r));
    if LexLess(z, x) {
      LexTotal(x, y);
      if LexLess(x, y) {
        LexTransitive(z, x, y);
      }
    }
  }

  lemma RenderedLeqTotal(p: Path, q: Path)
    ensures RenderedLeq(p, q) || RenderedLeq(q, p)
  {
    if !RenderedLeq(p, q) {
      LexAsymmetric(CodePoints(Render(q)), CodePoints(Render(p)));
    }
  }

  lemma {:induction false} InsertSorted(ps: seq<Path>, p: Path)
    requires Sorted(ps)
    ensures Sorted(Insert(RenderedLeq, ps, p))
  {
    if ps != [] {
      var init, last := ps[..|ps| - 1], ps[|ps| - 1];
      if RenderedLeq(last, p) {
        forall i | 0 <= i < |ps|
          ensures RenderedLeq(ps[i], p)
        {
          if i < |ps| - 1 {
            RenderedLeqTransitive(ps[i], last, p);
          }
        }
      } else {
        RenderedLeqTotal(last, p);
        InsertSorted(init, p);
        var r := Insert(RenderedLeq, init, p);
        forall i | 0 <= i < |r|
          ensures RenderedLeq(r[i], last)
        {
          assert r[i] in r;
          InsertElements(RenderedLeq, init, p, r[i]);
        }
      }
    }
  }

  lemma {:induction false} SortSorts(ps: seq<Path>)
    ensures Sorted(StableSort(RenderedLeq, ps))
  {
    if ps != [] {
      SortSorts(ps[..|ps| - 1]);
      InsertSorted(StableSort(RenderedLeq, ps[..|ps| - 1]), ps[|ps| - 1]);
    }
  }

  /** Every element of the set, once. */
  ghost predicate Enumerates(ps: seq<Path>, all: set<Path>) {
    multiset(ps) == multiset(all)
  }

  lemma EnumeratedOnce(ps: seq<Path>, all: set<Path>)
    requires Enumerates(ps, all)
    ensures forall p :: p in ps <==> p in all
    ensures NoRepeats(ps)
  {
    forall p
      ensures p in ps <==> p in all
    {
      assert p in ps <==> p in multiset(ps);
    }
    forall i, j | 0 <= i < j < |ps|
      ensures ps[i] != ps[j]
    {
      var a, b := ps[..j], ps[j..];
      assert ps == a + b;
      assert a[i] in multiset(a) && b[0] in multiset(b);
      assert multiset(ps)[ps[i]] == multiset(a)[ps[i]] + multiset(b)[ps[i]] <= 1;
    }
  }

  function RenderAll(ps: seq<Path>): (r: seq<string>)
    ensures |r| == |ps| && forall i :: 0 <= i < |ps| ==> r[i] == Render(ps[i])
  {
    seq(|ps|, i requires 0 <= i < |ps| => Render(ps[i]))
  }

  /** list_identities: every entry once, in order, whatever order the scan comes across them. */
  method ListIdentities(d: Disk) returns (identities: seq<string>, ghost ps: seq<Path>)
    ensures |identities| == |Listed(d)|
    ensures forall id :: id in identities <==> exists p :: p in Listed(d) && Render(p) == id
    ensures forall i, j :: 0 <= i < j < |identities| ==> !LexLess(CodePoints(identities[j]), CodePoints(identities[i]))
    ensures identities == RenderAll(ps) && Enumerates(ps, Listed(d))
  {
    var found: seq<Path> := [];
    var pending := d.root.Keys;
    while pending != {}
      invariant pending <= d.root.Keys
      invariant multiset(found) == multiset(Listed(d) - pending)
      decreases |pending|
    {
      var p :| p in pending;
      var before := Listed(d) - pending;
      pending := pending - {p};
      if d.root[p].Dir? && !Hidden(p.0) && !Hidden(p.1) {
        found := found + [p];
        assert Listed(d) - pending == before + {p};
      } else {
        assert Listed(d) - pending == before;
      }
    }
    assert Listed(d) - pending == Listed(d);
    identities, ps := RenderAll(StableSort(RenderedLeq, found)), StableSort(RenderedLeq, found);
    SortedListing(found, Listed(d));
  }

  lemma SortedListing(found: seq<Path>, all: set<Path>)
    requires Enumerates(found, all)
    ensures var ps := StableSort(RenderedLeq, found);
            var ids := RenderAll(ps);
            && Enumerates(ps, all) && |ids| == |all|
            && (forall id :: id in ids <==> exists p :: p in all && Render(p) == id)
            && forall i, j :: 0 <= i < j < |ids| ==> !LexLess(CodePoints(ids[j]), CodePoints(ids[i]))
  {
    var ps := StableSort(RenderedLeq, found);
    EnumeratedOnce(ps, all);
    SizeOf(ps, all);
    RenderedElements(ps, all);
    SortSorts(found);
    assert forall i, j :: 0 <= i < j < |ps| ==> RenderedLeq(ps[i], ps[j]);
  }

  lemma RenderedElements(ps: seq<Path>, all: set<Path>)
    requires forall p :: p in ps <==> p in all
    ensures forall id :: id in RenderAll(ps) <==> exists p :: p in all && Render(p) == id
  {
    forall id
      ensures id in RenderAll(ps) <==> exists p :: p in all && Render(p) == id
    {
      if id in RenderAll(ps) {
        var i :| 0 <= i < |ps| && RenderAll(ps)[i] == id;
        assert ps[i] in ps;
      }
      if p :| p in all && Render(p) == id {
        var i :| 0 <= i < |ps| && ps[i] == p;
        assert RenderAll(ps)[i] == id;
      }
    }
  }

  // ---- Prefixes ---------------------------------------------------------------------------

  datatype ResolveError = Malformed(why: IdentityError) | NotInStore | Ambiguous

  const MIN_PREFIX := 16
  const DIGEST_LENGTH := 64

  // What is asked for: an algorithm, if there was a ':' to end it, and hex digits.
  datatype Query = Query(algorithm: Option<string>, hex: string)

  function Parse(prefix: string): Query {
    match PartitionAtColon(prefix)
    case None => Query(None, prefix)
    case Some(p) => Query(Some(p.0), p.1)
  }

  predicate IsExact(prefix: string) {
    Parse(prefix).algorithm.Some? && |Parse(prefix).hex| == DIGEST_LENGTH
  }

  predicate Matches(identity: string, q: Query) {
    var digest := DigestOf(identity);
    if |q.hex| == DIGEST_LENGTH then digest == Some(q.hex)
    else digest.Some? && q.hex <= digest.value && (q.algorithm.Some? ==> q.algorithm.value + ":" <= identity)
  }

  function Matching(d: Disk, q: Query): set<Path> {
    set p | p in Listed(d) && Matches(Render(p), q)
  }

  ghost function Resolve(d: Disk, prefix: string): Result<string, ResolveError> {
    var q := Parse(prefix);
    if IsExact(prefix) then
      match PathFor(prefix)
      case Err(e) => Err(Malformed(e))
      case Ok(p) => if IsDir(d, p) then Ok(prefix) else Err(NotInStore)
    else if |q.hex| < MIN_PREFIX then Err(Ambiguous)
    else
      var m := Matching(d, q);
      if |m| == 0 then Err(NotInStore)
      else if |m| == 1 then var p :| p in m; Ok(Render(p))
      else Err(Ambiguous)
  }

  lemma Singleton(m: set<Path>, p: Path)
    requires |m| == 1 && p in m
    ensures m == {p}
  {
    assert |m - {p}| == 0;
  }

  function Filtered(ps: seq<Path>, q: Query): seq<Path> {
    if ps == [] then []
    else Filtered(ps[..|ps| - 1], q) + (if Matches(Render(ps[|ps| - 1]), q) then [ps[|ps| - 1]] else [])
  }

  ghost predicate NoRepeats(ps: seq<Path>) {
    forall i, j :: 0 <= i < j < |ps| ==> ps[i] != ps[j]
  }

  lemma {:induction false} FilteredElements(ps: seq<Path>, q: Query)
    requires NoRepeats(ps)
    ensures forall p :: p in Filtered(ps, q) <==> p in ps && Matches(Render(p), q)
    ensures NoRepeats(Filtered(ps, q))
  {
    if ps != [] {
      var init, last := ps[..|ps| - 1], ps[|ps| - 1];
      FilteredElements(init, q);
      assert forall p :: p in ps <==> p in init || p == last;
    }
  }

  lemma {:induction false} SizeOf(ps: seq<Path>, all: set<Path>)
    requires NoRepeats(ps) && forall p :: p in ps <==> p in all
    ensures |ps| == |all|
  {
    if ps != [] {
      var init, last := ps[..|ps| - 1], ps[|ps| - 1];
      assert forall p :: p in ps <==> p in init || p == last;
      SizeOf(init, all - {last});
    }
  }

  /** resolve_prefix, by listing the store and counting the matches. */
  method ResolvePrefix(d: Disk, prefix: string) returns (r: Result<string, ResolveError>)
    ensures r == Resolve(d, prefix)
  {
    var q := Parse(prefix);
    if q.algorithm.Some? && |q.hex| == DIGEST_LENGTH {
      var path := PathFor(prefix);
      if path.Err? {
        return Err(Malformed(path.error));
      }
      return if IsDir(d, path.value) then Ok(prefix) else Err(NotInStore);
    }
    if |q.hex| < MIN_PREFIX {
      return Err(Ambiguous);
    }
    var identities, ps := ListIdentities(d);
    var matches: seq<string> := [];
    for i := 0 to |identities|
      invariant matches == RenderAll(Filtered(ps[..i], q))
    {
      assert ps[..i + 1][..i] == ps[..i];
      if Matches(identities[i], q) {
        matches := matches + [identities[i]];
      }
    }
    ResolvedFrom(d, prefix, ps);
    return if |matches| == 1 then Ok(matches[0]) else Err(if |matches| == 0 then NotInStore else Ambiguous);
  }

  lemma ResolvedFrom(d: Disk, prefix: string, ps: seq<Path>)
    requires Enumerates(ps, Listed(d)) && !IsExact(prefix) && |Parse(prefix).hex| >= MIN_PREFIX
    ensures ps[..|ps|] == ps
    ensures var f := Filtered(ps, Parse(prefix));
            Resolve(d, prefix) == if |f| == 1 then Ok(Render(f[0])) else Err(if |f| == 0 then NotInStore else Ambiguous)
  {
    EnumeratedOnce(ps, Listed(d));
    FilteredElements(ps, Parse(prefix));
    var f, m := Filtered(ps, Parse(prefix)), Matching(d, Parse(prefix));
    SizeOf(f, m);
    if |f| == 1 {
      assert f[0] in f;
      Singleton(m, f[0]);
    }
  }

  /** A resolved identity is a stored one, and what was asked for. */
  lemma ResolvedIsStored(d: Disk, prefix: string)
    requires Resolve(d, prefix).Ok?
    ensures exists p :: IsDir(d, p) && Render(p) == Resolve(d, prefix).value
    ensures DigestOf(Resolve(d, prefix).value).Some? && Parse(prefix).hex <= DigestOf(Resolve(d, prefix).value).value
  {
    if IsExact(prefix) {
      RenderPath(prefix);
      assert IsDir(d, PathFor(prefix).value);
    } else {
      var m := Matching(d, Parse(prefix));
      var p :| p in m && Resolve(d, prefix) == Ok(Render(p));
      assert IsDir(d, p);
    }
  }

  lemma SubsetSize(m: set<Path>, n: set<Path>)
    requires m <= n
    ensures |m| <= |n|
    ensures |m| == |n| ==> m == n
  {
    assert n == m + (n - m);
  }

  /** A prefix never comes to mean another entry: as the store grows, what resolved still does
      or becomes ambiguous, and a full identity that resolved always will. */
  lemma ResolutionIsStable(d: Disk, later: Disk, prefix: string)
    requires Grown(d, later)
    ensures var before, after := Resolve(d, prefix), Resolve(later, prefix);
            && (before.Ok? ==> after == before || after == Err(Ambiguous))
            && (before.Ok? && IsExact(prefix) ==> after == before)
            && (before.Err? && !before.error.NotInStore? ==> after == before)
  {
    var q := Parse(prefix);
    var m, n := Matching(d, q), Matching(later, q);
    forall p | p in m
      ensures p in n
    {
      assert IsDir(d, p);
    }
    SubsetSize(m, n);
    if |n| == 1 && |m| == 1 {
      var p :| p in m;
      Singleton(m, p);
    }
  }

  /** What admit() returned a path for resolves from then on, by its full identity; and by any
      long enough prefix of its digest, unless another stored entry shares it. */
  lemma AdmittedResolves(hash: Hasher, s: State, schedule: seq<Action>, c: nat, n: nat)
    requires Sound(hash, s) && AllHonest(hash, schedule) && MIN_PREFIX <= n <= DIGEST_LENGTH
    requires c in s.calls && s.calls[c].phase.Done? && s.calls[c].phase.outcome.Ok?
    ensures var d, path := Run(hash, s, schedule).disk, s.calls[c].phase.outcome.value;
            && Resolve(d, s.calls[c].identity) == Ok(s.calls[c].identity)
            && |path.1| == DIGEST_LENGTH
            && var r := Resolve(d, path.1[..n]);
            && (r == Ok(s.calls[c].identity) || r == Err(Ambiguous))
            && (r == Err(Ambiguous) <==>
                  exists p :: p in Listed(d) && p != path && Matches(Render(p), Query(None, path.1[..n])))
  {
    var d, k := Run(hash, s, schedule).disk, s.calls[c];
    var path := k.phase.outcome.value;
    RunGrows(hash, s, schedule);
    assert CallSound(hash, s.disk, k);
    RenderPath(k.identity);
    NotHidden(path);
    PrefixResolves(d, path, n);
  }

  lemma PrefixResolves(d: Disk, path: Path, n: nat)
    requires path in Listed(d) && PathFor(Render(path)) == Ok(path) && MIN_PREFIX <= n <= DIGEST_LENGTH
    ensures var r := Resolve(d, path.1[..n]);
            && (r == Ok(Render(path)) || r == Err(Ambiguous))
            && (r == Err(Ambiguous) <==>
                  exists p :: p in Listed(d) && p != path && Matches(Render(p), Query(None, path.1[..n])))
  {
    var prefix := path.1[..n];
    HexPrefix(path.1, n);
    HexHasNoColon(prefix);
    var q := Query(None, prefix);
    var m := Matching(d, q);
    PathMatches(path, n);
    if p :| p in Listed(d) && p != path && Matches(Render(p), q) {
      assert {p, path} <= m;
      SubsetSize({p, path}, m);
    } else {
      assert m == {path};
    }
  }

  lemma PathMatches(path: Path, n: nat)
    requires PathFor(Render(path)) == Ok(path) && n <= DIGEST_LENGTH
    ensures Matches(Render(path), Query(None, path.1[..n]))
  {
    assert n == DIGEST_LENGTH ==> path.1[..n] == path.1;
  }

  lemma NotHidden(path: Path)
    requires path.0 == "dag-sha256" && IsLowerHex(path.1) && |path.1| == DIGEST_LENGTH
    ensures !Hidden(path.0) && !Hidden(path.1)
  {
    assert path.1[0] in path.1;
  }

  lemma HexPrefix(s: string, n: nat)
    requires IsLowerHex(s) && n <= |s|
    ensures IsLowerHex(s[..n])
  {
    assert forall c :: c in s[..n] ==> c in s;
  }

  lemma {:induction false} HexHasNoColon(s: string)
    requires IsLowerHex(s)
    ensures PartitionAtColon(s).None?
  {
    if s != "" {
      assert s[0] in s;
      assert forall c :: c in s[1..] ==> c in s;
      HexHasNoColon(s[1..]);
    }
  }
}
