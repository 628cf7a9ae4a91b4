// The binding phase: which origin each dependency key stands for.
module Binding {
  import opened Common
  import opened SourceId

  // ---- Keys and their "::" encoding --------------------------------------------

  datatype DepKey = DepKey(name: string, namespace: Option<string>)

  const SEP := "::"

  function SolverVar(k: DepKey): string {
    if k.namespace.None? then k.name else k.namespace.value + SEP + k.name
  }

  /** s.partition("::"), when the separator is there. */
  function Partition(s: string): Option<(string, string)> {
    if |s| < 2 then None
    else if s[0] == ':' && s[1] == ':' then Some(("", s[2..]))
    else
      match Partition(s[1..])
      case None => None
      case Some((ns, name)) => Some(([s[0]] + ns, name))
  }

  function FromSolverVar(s: string): DepKey {
    match Partition(s)
    case None => DepKey(s, None)
    case Some((ns, name)) => DepKey(name, Some(ns))
  }

  /** What a caller can check of a key: no "::" in a bare name; in a namespace, none either, and
      no ':' at its end to make one with the separator. */
  predicate Encodable(k: DepKey) {
    if k.namespace.None? then !Contains(k.name, SEP) else !Contains(k.namespace.value + ":", SEP)
  }

  lemma {:induction false} PartitionNone(s: string)
    ensures Partition(s).None? <==> !Contains(s, SEP)
  {
    if |s| >= 2 {
      PartitionNone(s[1..]);
      assert OccursAt(s, SEP, 0) <==> s[0] == ':' && s[1] == ':';
      forall i | 1 <= i <= |s| - 2
        ensures OccursAt(s, SEP, i) <==> OccursAt(s[1..], SEP, i - 1)
      {
        assert s[i..i + 2] == s[1..][i - 1..i + 1];
      }
      if Contains(s[1..], SEP) {
        var j :| 0 <= j <= |s[1..]| - 2 && OccursAt(s[1..], SEP, j);
        assert OccursAt(s, SEP, j + 1);
      }
    }
  }

  lemma {:induction false} PartitionAt(ns: string, name: string)
    ensures Partition(ns + SEP + name) == Some((ns, name)) <==> !Contains(ns + ":", SEP)
  {
    var s := ns + SEP + name;
    if ns == "" {
      assert s[2..] == name;
    } else {
      var t := ns[1..];
      assert s[1..] == t + SEP + name;
      PartitionAt(t, name);
      assert (ns + ":")[1..] == t + ":";
      PartitionNone(ns + ":");
      PartitionNone(t + ":");
      assert ns == [ns[0]] + t;
      assert s[1] == (ns + ":")[1];
    }
  }

  /** Whatever string is decoded, encoding what came out gives it back: two keys are decoded
      from one string only. */
  lemma {:induction false} DecodeEncode(s: string)
    ensures SolverVar(FromSolverVar(s)) == s
  {
    if |s| >= 2 && !(s[0] == ':' && s[1] == ':') {
      DecodeEncode(s[1..]);
      if Partition(s[1..]).Some? {
        var (ns, name) := Partition(s[1..]).value;
        assert [s[0]] + ns + SEP + name == [s[0]] + (ns + SEP + name);
      }
    }
  }

  /** A key survives its encoding exactly when it is encodable. */
  lemma EncodingRoundTrip(k: DepKey)
    ensures FromSolverVar(SolverVar(k)) == k <==> Encodable(k)
  {
    if k.namespace.None? {
      PartitionNone(k.name);
    } else {
      PartitionAt(k.namespace.value, k.name);
    }
  }

  // ---- The resolver's state ------------------------------------------------------

  // The solver's variable for an origin; two are one variable when their identities are equal.
  datatype SolverKey = SolverKey(identity: string, display: DepKey)

  datatype Claim = Claim(name: string, source: SourceId, isRoot: bool)

  datatype Outcome = New | Duplicate | LostToRoot

  // ValueError, AssertionError and RES-BINDING-CONFLICT.
  datatype BindError = WrongKind | RootsDisagree | BindingConflict

  datatype Decision = Decision(accepted: SourceId, outcome: Outcome)

  // `order` is the insertion order of the dictionary `bindings`.
  datatype State = State(bindings: map<DepKey, SourceId>, roots: set<DepKey>, order: seq<DepKey>,
                         index: map<string, SolverKey>)

  const Unbound := State(map[], {}, [], map[])

  function KeyFor(c: Claim): DepKey {
    FromSolverVar(c.name)
  }

  /** First key wins: an origin keeps the label it was first bound under. */
  function Intern(index: map<string, SolverKey>, canonical: string, key: DepKey): map<string, SolverKey> {
    if canonical in index then index else index[canonical := SolverKey(canonical, key)]
  }

  function Bind(s: State, key: DepKey, source: SourceId): State {
    State(s.bindings[key := source], s.roots, if key in s.bindings then s.order else s.order + [key],
          Intern(s.index, Canonical(source), key))
  }

  function BindRoot(s: State, c: Claim): Result<State, BindError> {
    var key := KeyFor(c);
    if !c.isRoot then Err(WrongKind)
    else if key in s.bindings && s.bindings[key] != c.source then Err(RootsDisagree)
    else
      var bound := Bind(s, key, c.source);
      Ok(bound.(roots := s.roots + {key}))
  }

  /** The state the constructor leaves, or what it raises. */
  function BindRoots(claims: seq<Claim>): Result<State, BindError> {
    if claims == [] then Ok(Unbound)
    else
      match BindRoots(claims[..|claims| - 1])
      case Err(e) => Err(e)
      case Ok(s) => BindRoot(s, claims[|claims| - 1])
  }

  function Submit(s: State, c: Claim): (State, Result<Decision, BindError>) {
    var key := KeyFor(c);
    if c.isRoot then (s, Err(WrongKind))
    else if key !in s.bindings then (Bind(s, key, c.source), Ok(Decision(c.source, New)))
    else if s.bindings[key] == c.source then (s, Ok(Decision(s.bindings[key], Duplicate)))
    else if key in s.roots then (s, Ok(Decision(s.bindings[key], LostToRoot)))
    else (s, Err(BindingConflict))
  }

  /** Submissions in order, up to the first that raises. */
  function Run(s: State, claims: seq<Claim>): Result<State, BindError> {
    if claims == [] then Ok(s)
    else
      match Run(s, claims[..|claims| - 1])
      case Err(e) => Err(e)
      case Ok(t) =>
        var (u, decision) := Submit(t, claims[|claims| - 1]);
        if decision.Err? then Err(decision.error) else Ok(u)
  }

  // ---- One submission -------------------------------------------------------------

  /** A binding, once made, stays; only a NEW outcome changes anything, and it binds one key. */
  lemma SubmitFrame(s: State, c: Claim)
    ensures var (t, decision) := Submit(s, c);
            && (forall k :: k in s.bindings ==> k in t.bindings && t.bindings[k] == s.bindings[k])
            && t.roots == s.roots
            && (t != s ==> decision.Ok? && decision.value.outcome == New)
            && (decision.Ok? && decision.value.outcome == New ==>
                  KeyFor(c) !in s.bindings && t.bindings == s.bindings[KeyFor(c) := c.source])
            && (decision.Ok? ==> KeyFor(c) in t.bindings && t.bindings[KeyFor(c)] == decision.value.accepted)
  {
  }

  lemma {:induction false} RunKeeps(s: State, claims: seq<Claim>)
    requires Run(s, claims).Ok?
    ensures var t := Run(s, claims).value;
            && (forall k :: k in s.bindings ==> k in t.bindings && t.bindings[k] == s.bindings[k])
            && t.roots == s.roots
  {
    if claims != [] {
      RunKeeps(s, claims[..|claims| - 1]);
      SubmitFrame(Run(s, claims[..|claims| - 1]).value, claims[|claims| - 1]);
    }
  }

  // ---- Order of submission ----------------------------------------------------------

  /** Two of the claims want a key that no root owns for different sources. */
  ghost predicate Disagree(s: State, claims: seq<Claim>) {
    exists c, d :: c in claims && d in claims && KeyFor(c) == KeyFor(d) && KeyFor(c) !in s.bindings
                   && c.source != d.source
  }

  /** `t` binds what `s` does, and besides it what the claims ask for. */
  ghost predicate Extends(s: State, claims: seq<Claim>, t: State) {
    && t.roots == s.roots
    && (forall k :: k in t.bindings <==> k in s.bindings || exists c :: c in claims && KeyFor(c) == k)
    && (forall k :: k in s.bindings ==> t.bindings[k] == s.bindings[k])
    && (forall c :: c in claims && KeyFor(c) !in s.bindings ==> t.bindings[KeyFor(c)] == c.source)
  }

  lemma {:induction false} RunOutcome(s: State, claims: seq<Claim>)
    requires s.roots == s.bindings.Keys
    requires forall c :: c in claims ==> !c.isRoot
    ensures Run(s, claims).Err? <==> Disagree(s, claims)
    ensures Run(s, claims).Err? ==> Run(s, claims) == Err(BindingConflict)
    ensures Run(s, claims).Ok? ==> Extends(s, claims, Run(s, claims).value)
  {
    if claims != [] {
      var init, last := claims[..|claims| - 1], claims[|claims| - 1];
      assert claims == init + [last];
      assert forall c :: c in claims <==> c in init || c == last;
      RunOutcome(s, init);
      if Run(s, init).Ok? {
        var t := Run(s, init).value;
        if Submit(t, last).1.Err? {
          var c :| c in init && KeyFor(c) == KeyFor(last);
          assert c.source != last.source;
        } else {
          SubmitExtends(s, init, t, last);
        }
      }
    }
  }

  lemma SubmitExtends(s: State, claims: seq<Claim>, t: State, c: Claim)
    requires s.roots == s.bindings.Keys && Extends(s, claims, t) && Submit(t, c).1.Ok?
    ensures Extends(s, claims + [c], Submit(t, c).0)
    ensures !Disagree(s, claims + [c])
  {
    SubmitFrame(t, c);
    var u := Submit(t, c).0;
    assert forall d :: d in claims + [c] <==> d in claims || d == c;
    if KeyFor(c) in t.bindings && KeyFor(c) !in s.bindings {
      assert t.bindings[KeyFor(c)] == c.source;
    }
  }

  /** Neither whether a conflict is hit, nor the bindings if none is, depend on the order in
      which transitive claims are submitted, or on how often. */
  lemma OrderIrrelevant(s: State, claims: seq<Claim>, reordered: seq<Claim>)
    requires s.roots == s.bindings.Keys
    requires forall c :: c in claims <==> c in reordered
    requires forall c :: c in claims ==> !c.isRoot
    ensures Run(s, claims).Err? <==> Run(s, reordered).Err?
    ensures Run(s, claims).Ok? ==> Run(s, claims).value.bindings == Run(s, reordered).value.bindings
  {
    RunOutcome(s, claims);
    RunOutcome(s, reordered);
    if Run(s, claims).Ok? {
      var t, u := Run(s, claims).value, Run(s, reordered).value;
      forall k
        ensures k in t.bindings <==> k in u.bindings
        ensures k in t.bindings ==> t.bindings[k] == u.bindings[k]
      {
        if k in t.bindings && k !in s.bindings {
          var c :| c in claims && KeyFor(c) == k;
          assert c in reordered;
        }
      }
    }
  }

  lemma BindRootFrame(s: State, c: Claim)
    requires BindRoot(s, c).Ok?
    ensures BindRoot(s, c).value.bindings == s.bindings[KeyFor(c) := c.source]
    ensures BindRoot(s, c).value.roots == s.roots + {KeyFor(c)}
    ensures KeyFor(c) in s.bindings ==> s.bindings[KeyFor(c)] == c.source
  {
  }

  lemma {:induction false} RootsOwnAll(claims: seq<Claim>)
    requires BindRoots(claims).Ok?
    ensures BindRoots(claims).value.roots == BindRoots(claims).value.bindings.Keys
    ensures forall c :: c in claims ==>
              KeyFor(c) in BindRoots(claims).value.bindings && BindRoots(claims).value.bindings[KeyFor(c)] == c.source
  {
    if claims != [] {
      var init, last := claims[..|claims| - 1], claims[|claims| - 1];
      assert forall c :: c in claims ==> c in init || c == last;
      RootsOwnAll(init);
      BindRootFrame(BindRoots(init).value, last);
    }
  }

  // ---- The intern table ----------------------------------------------------------------

  type Bindings = map<DepKey, SourceId>

  ghost predicate HasCanonical(b: Bindings, k: DepKey, canonical: string) {
    k in b && Canonical(b[k]) == canonical
  }

  ghost predicate EarliestAt(b: Bindings, order: seq<DepKey>, canonical: string, i: nat)
    requires i < |order|
  {
    && HasCanonical(b, order[i], canonical)
    && forall j :: 0 <= j < i ==> !HasCanonical(b, order[j], canonical)
  }

  /** `k` is the first key in the binding order whose source has this canonical string. */
  ghost predicate Earliest(b: Bindings, order: seq<DepKey>, canonical: string, k: DepKey) {
    exists i :: 0 <= i < |order| && EarliestAt(b, order, canonical, i) && order[i] == k
  }

  /** The table knows the canonical strings of the bound sources, no others, each under the
      label it was first bound under. */
  ghost predicate Interned(s: State) {
    InternedTable(s.bindings, s.order, s.index)
  }

  ghost predicate InternedTable(b: Bindings, order: seq<DepKey>, index: map<string, SolverKey>) {
    && (forall k :: k in order <==> k in b)
    && (forall c :: c in index <==> exists k :: HasCanonical(b, k, c))
    && (forall c :: c in index ==> index[c].identity == c && Earliest(b, order, c, index[c].display))
  }

  lemma BindInterns(s: State, key: DepKey, source: SourceId)
    requires Interned(s) && (key in s.bindings ==> s.bindings[key] == source)
    ensures Interned(Bind(s, key, source))
  {
    var t, canonical := Bind(s, key, source), Canonical(source);
    if key in s.bindings {
      assert HasCanonical(s.bindings, key, canonical);
      assert t.bindings == s.bindings && t.index == s.index;
    } else {
      forall c
        ensures c in t.index <==> exists k :: HasCanonical(t.bindings, k, c)
        ensures c in t.index ==> t.index[c].identity == c && Earliest(t.bindings, t.order, c, t.index[c].display)
      {
        NewKeyCanonical(s.bindings, t.bindings, key, source, c);
        if c in t.index {
          NewKeyLabel(s, key, source, c);
        }
      }
    }
  }

  lemma NewKeyCanonical(b: Bindings, b': Bindings, key: DepKey, source: SourceId, c: string)
    requires key !in b && b' == b[key := source]
    ensures forall k :: HasCanonical(b', k, c) <==> HasCanonical(b, k, c) || (k == key && c == Canonical(source))
    ensures (exists k :: HasCanonical(b', k, c)) <==> (exists k :: HasCanonical(b, k, c)) || c == Canonical(source)
  {
    assert HasCanonical(b', key, Canonical(source));
    if k :| HasCanonical(b, k, c) {
      assert HasCanonical(b', k, c);
    }
  }

  // A new key is last in the order, so it labels no origin but a new one.
  lemma NewKeyLabel(s: State, key: DepKey, source: SourceId, c: string)
    requires Interned(s) && key !in s.bindings && c in Bind(s, key, source).index
    ensures var t := Bind(s, key, source);
            t.index[c].identity == c && Earliest(t.bindings, t.order, c, t.index[c].display)
  {
    var t := Bind(s, key, source);
    NewKeyCanonical(s.bindings, t.bindings, key, source, c);
    if c in s.index {
      assert s.order == t.order[..|s.order|];
      EarliestStays(s.bindings, s.order, t.bindings, t.order, c, s.index[c].display);
    } else {
      forall j | 0 <= j < |s.order|
        ensures !HasCanonical(t.bindings, t.order[j], c)
      {
        var k := t.order[j];
        assert k == s.order[j] && k in s.order;
        assert !HasCanonical(s.bindings, k, c);
      }
      assert EarliestAt(t.bindings, t.order, c, |s.order|);
    }
  }

  lemma EarliestStays(b: Bindings, order: seq<DepKey>, b': Bindings, order': seq<DepKey>, c: string, k: DepKey)
    requires Earliest(b, order, c, k)
    requires |order| <= |order'| && order == order'[..|order|]
    requires forall x :: x in order ==> (HasCanonical(b', x, c) <==> HasCanonical(b, x, c))
    ensures Earliest(b', order', c, k)
  {
    var i :| 0 <= i < |order| && EarliestAt(b, order, c, i) && order[i] == k;
    assert forall j :: 0 <= j < |order| ==> order'[j] == order[j];
    assert forall j :: 0 <= j <= i ==> order[j] in order;
    assert EarliestAt(b', order', c, i);
  }

  lemma {:induction false} RootsInterned(claims: seq<Claim>)
    requires BindRoots(claims).Ok?
    ensures Interned(BindRoots(claims).value)
  {
    if claims != [] {
      var init, last := claims[..|claims| - 1], claims[|claims| - 1];
      RootsInterned(init);
      var s := BindRoots(init).value;
      BindInterns(s, KeyFor(last), last.source);
    }
  }

  lemma SubmitInterned(s: State, c: Claim)
    requires Interned(s)
    ensures Interned(Submit(s, c).0)
  {
    if KeyFor(c) !in s.bindings {
      BindInterns(s, KeyFor(c), c.source);
    }
  }

  /** Through every run the table stays in step with the bindings. */
  lemma {:induction false} RunInterned(s: State, claims: seq<Claim>)
    requires Interned(s) && Run(s, claims).Ok?
    ensures Interned(Run(s, claims).value)
  {
    if claims != [] {
      RunInterned(s, claims[..|claims| - 1]);
      SubmitInterned(Run(s, claims[..|claims| - 1]).value, claims[|claims| - 1]);
    }
  }

  /** canonical_for: what it returns (None for MILPA-INTERNAL) and the table it leaves. */
  function CanonicalFor(s: State, key: DepKey): (State, Option<SolverKey>) {
    if key !in s.bindings then (s, None)
    else
      var canonical := Canonical(s.bindings[key]);
      var index := Intern(s.index, canonical, key);
      (s.(index := index), Some(index[canonical]))
  }

  /** Asking for a bound key's variable interns nothing, and the variable is its origin's string. */
  lemma CanonicalForReads(s: State, key: DepKey)
    requires Interned(s) && key in s.bindings
    ensures CanonicalFor(s, key).0 == s
    ensures CanonicalFor(s, key).1.Some?
    ensures CanonicalFor(s, key).1.value.identity == Canonical(s.bindings[key])
    ensures Earliest(s.bindings, s.order, Canonical(s.bindings[key]), CanonicalFor(s, key).1.value.display)
  {
    assert HasCanonical(s.bindings, key, Canonical(s.bindings[key]));
  }

  ghost predicate SourcesWellFormed(s: State) {
    forall k :: k in s.bindings ==> WellFormed(s.bindings[k])
  }

  lemma {:induction false} RootsWellFormed(claims: seq<Claim>)
    requires BindRoots(claims).Ok? && forall c :: c in claims ==> WellFormed(c.source)
    ensures SourcesWellFormed(BindRoots(claims).value)
  {
    if claims != [] {
      RootsWellFormed(claims[..|claims| - 1]);
      BindRootFrame(BindRoots(claims[..|claims| - 1]).value, claims[|claims| - 1]);
    }
  }

  lemma {:induction false} RunWellFormed(s: State, claims: seq<Claim>)
    requires SourcesWellFormed(s) && Run(s, claims).Ok? && forall c :: c in claims ==> WellFormed(c.source)
    ensures SourcesWellFormed(Run(s, claims).value)
  {
    if claims != [] {
      RunWellFormed(s, claims[..|claims| - 1]);
      SubmitFrame(Run(s, claims[..|claims| - 1]).value, claims[|claims| - 1]);
    }
  }

  /** Two bound keys are one solver variable, label and all, exactly when their sources have one
      canonical string: when they are one source, or an OCI source and its twin. */
  lemma SameVariable(s: State, j: DepKey, k: DepKey)
    requires Interned(s) && SourcesWellFormed(s) && j in s.bindings && k in s.bindings
    ensures CanonicalFor(s, j).1 == CanonicalFor(s, k).1 <==>
            Canonical(s.bindings[j]) == Canonical(s.bindings[k])
    ensures CanonicalFor(s, j).1 == CanonicalFor(s, k).1 <==>
            || s.bindings[j] == s.bindings[k]
            || Twins(s.bindings[j], s.bindings[k]) || Twins(s.bindings[k], s.bindings[j])
  {
    CanonicalForReads(s, j);
    CanonicalForReads(s, k);
    CanonicalCharacterizes(s.bindings[j], s.bindings[k]);
  }

  // ---- The object ------------------------------------------------------------------------

  class BindingResolver {
    var bindings: map<DepKey, SourceId>
    var rootKeys: set<DepKey>
    var solverkeyIndex: map<string, SolverKey>
    ghost var order: seq<DepKey>

    ghost function Contents(): State
      reads this
    {
      State(bindings, rootKeys, order, solverkeyIndex)
    }

    constructor ()
      ensures Contents() == Unbound
    {
      bindings, rootKeys, solverkeyIndex, order := map[], {}, map[], [];
    }

    // The loop of __init__; on an error the object is not used again.
    method Init(rootClaims: seq<Claim>) returns (raised: Option<BindError>)
      requires Contents() == Unbound
      modifies this
      ensures match BindRoots(rootClaims)
              case Ok(s) => raised == None && Contents() == s
              case Err(e) => raised == Some(e)
    {
      assert rootClaims[..0] == [];
      var i := 0;
      while i < |rootClaims|
        invariant 0 <= i <= |rootClaims|
        invariant BindRoots(rootClaims[..i]) == Ok(Contents())
      {
        assert rootClaims[..i + 1][..i] == rootClaims[..i];
        raised := InitOne(rootClaims[i]);
        i := i + 1;
        if raised.Some? {
          InitErrorSticks(rootClaims, i);
          return;
        }
      }
      assert rootClaims[..i] == rootClaims;
      raised := None;
    }

    method InitOne(claim: Claim) returns (raised: Option<BindError>)
      modifies this
      ensures match BindRoot(old(Contents()), claim)
              case Ok(s) => raised == None && Contents() == s
              case Err(e) => raised == Some(e)
    {
      if !claim.isRoot {
        return Some(WrongKind);
      }
      var key := KeyFor(claim);
      if key in bindings && bindings[key] != claim.source {
        return Some(RootsDisagree);
      }
      BindHere(key, claim.source);
      rootKeys := rootKeys + {key};
      raised := None;
    }

    method BindHere(key: DepKey, source: SourceId)
      modifies `bindings, `order, `solverkeyIndex
      ensures Contents() == Bind(old(Contents()), key, source)
    {
      order := if key in bindings then order else order + [key];
      bindings := bindings[key := source];
      InternHere(Canonical(source), key);
    }

    method InternHere(canonical: string, key: DepKey)
      modifies `solverkeyIndex
      ensures solverkeyIndex == Intern(old(solverkeyIndex), canonical, key)
    {
      if canonical !in solverkeyIndex {
        solverkeyIndex := solverkeyIndex[canonical := SolverKey(canonical, key)];
      }
    }

    method SubmitClaim(claim: Claim) returns (r: Result<Decision, BindError>)
      modifies this
      ensures (Contents(), r) == Submit(old(Contents()), claim)
      ensures old(Interned(Contents())) ==> Interned(Contents())
    {
      if Interned(Contents()) {
        SubmitInterned(Contents(), claim);
      }
      if claim.isRoot {
        return Err(WrongKind);
      }
      var key := KeyFor(claim);
      if key !in bindings {
        BindHere(key, claim.source);
        return Ok(Decision(claim.source, New));
      }
      if bindings[key] == claim.source {
        return Ok(Decision(bindings[key], Duplicate));
      }
      if key in rootKeys {
        return Ok(Decision(bindings[key], LostToRoot));
      }
      r := Err(BindingConflict);
    }

    method CanonicalForKey(key: DepKey) returns (r: Option<SolverKey>)
      requires Interned(Contents())
      modifies `solverkeyIndex
      ensures Contents() == old(Contents())
      ensures r == CanonicalFor(Contents(), key).1
    {
      if key !in bindings {
        return None;
      }
      CanonicalForReads(Contents(), key);
      var canonical := Canonical(bindings[key]);
      InternHere(canonical, key);
      r := Some(solverkeyIndex[canonical]);
    }
  }

  lemma {:induction false} InitErrorSticks(claims: seq<Claim>, i: nat)
    requires i <= |claims| && BindRoots(claims[..i]).Err?
    ensures BindRoots(claims) == BindRoots(claims[..i])
    decreases |claims|
  {
    if i == |claims| {
      assert claims[..i] == claims;
    } else {
      assert claims[..|claims| - 1][..i] == claims[..i];
      InitErrorSticks(claims[..|claims| - 1], i);
    }
  }
}
