// From an edge set to the solver's terms, and to the dependencies the search goes on with.
module EdgeTerms {
  import opened Common
  import opened Edges
  import opened SourceId
  import opened Binding
  import opened Reconcile

  // ---- Names out of URLs ---------------------------------------------------------------

  /** s.rstrip("/") */
  function RStrip(s: string): string {
    if s != "" && s[|s| - 1] == '/' then RStrip(s[..|s| - 1]) else s
  }

  /** s.rsplit("/", 1)[-1] */
  function LastComponent(s: string): (r: string)
    ensures '/' !in r && |r| <= |s| && r == s[|s| - |r|..]
  {
    if s == "" || s[|s| - 1] == '/' then ""
    else
      var init := LastComponent(s[..|s| - 1]);
      assert s == s[..|s| - 1] + [s[|s| - 1]];
      init + [s[|s| - 1]]
  }

  function WithoutGit(s: string): string {
    if |s| >= 4 && s[|s| - 4..] == ".git" then s[..|s| - 4] else s
  }

  /** What is left of a URL's last path component without ".git". */
  function Component(url: string): string {
    WithoutGit(LastComponent(RStrip(url)))
  }

  /** url_to_name: never empty but for an empty URL. */
  function UrlToName(url: string): (r: string)
    ensures r == "" ==> url == ""
  {
    if Component(url) != "" then Component(url) else url
  }

  /** _name_from_url */
  function NameFromUrl(url: string): (r: Option<string>)
    ensures r.Some? ==> r.value == UrlToName(url)
  {
    var name, stripped := UrlToName(url), WithoutGit(RStrip(url));
    if name == stripped || '/' in name || Contains(name, "..") then None else Some(name)
  }

  /** `name` is what comes after the last '/' of `s`. */
  predicate IsLastComponent(s: string, name: string) {
    '/' !in name && |name| < |s| && s[|s| - |name|..] == name && s[|s| - |name| - 1] == '/'
  }

  /** There is a path component to take for a name. */
  predicate HasName(url: string) {
    '/' in RStrip(url) && Component(url) != "" && !Contains(Component(url), "..")
  }

  /** Which URLs have a derived name: those with a '/' before the trailing ones and something
      after it, ".git" and ".." aside. The name is that last path component. One URL besides has
      a name, its own. */
  lemma DerivedName(url: string)
    ensures NameFromUrl(url) ==
            if url == ".git" then Some(".git") else if HasName(url) then Some(Component(url)) else None
    ensures '/' in RStrip(url) ==> IsLastComponent(WithoutGit(RStrip(url)), Component(url))
  {
    var s := RStrip(url);
    RStripIsPrefix(url);
    if '/' in s {
      LastComponentIsLast(s);
      WithoutGitEnds(s, LastComponent(s));
      assert '/' in url;
    } else {
      NoSlash(s);
      NoComponent(url);
    }
  }

  // Without a path component the whole URL is returned, and not taken for a name.
  lemma NoComponent(url: string)
    requires '/' !in RStrip(url) && Component(url) == WithoutGit(RStrip(url))
    ensures NameFromUrl(url) == if url == ".git" then Some(".git") else None
  {
    if url == ".git" {
      DotGitIsAName();
    } else if Component(url) == "" && '/' !in url {
      NoSlash(url);
      assert url == "";
    }
  }

  lemma {:induction false} RStripIsPrefix(s: string)
    ensures RStrip(s) <= s
  {
    if s != "" && s[|s| - 1] == '/' {
      RStripIsPrefix(s[..|s| - 1]);
    }
  }

  lemma LastComponentIsLast(s: string)
    requires '/' in s
    ensures IsLastComponent(s, LastComponent(s))
  {
    LastComponentStarts(s);
    assert s[0..] == s;
  }

  lemma WithoutGitEnds(s: string, last: string)
    requires IsLastComponent(s, last)
    ensures IsLastComponent(WithoutGit(s), WithoutGit(last))
  {
    if |last| >= 4 {
      assert last[|last| - 4..] == s[|s| - 4..];
    } else if |s| >= 4 {
      assert s[|s| - 4..][3 - |last|] == '/';
    }
  }

  lemma DotGitIsAName()
    ensures NameFromUrl(".git") == Some(".git")
  {
    NoSlash(".git");
    assert !OccursAt(".git", "..", 0) && !OccursAt(".git", "..", 1) && !OccursAt(".git", "..", 2);
  }

  lemma {:induction false} LastComponentStarts(s: string)
    ensures |LastComponent(s)| < |s| ==> s[|s| - |LastComponent(s)| - 1] == '/'
  {
    if s != "" && s[|s| - 1] != '/' {
      LastComponentStarts(s[..|s| - 1]);
    }
  }

  lemma {:induction false} NoSlash(s: string)
    requires '/' !in s
    ensures RStrip(s) == s && LastComponent(s) == s
  {
    if s != "" {
      assert s[|s| - 1] in s;
      NoSlash(s[..|s| - 1]);
    }
  }

  // ---- Terms -------------------------------------------------------------------------------

  // The versions a term allows: all, or those of a constraint that parses.
  datatype Range = Full | Within(constraint: string)
  datatype Term = Term(key: SolverKey, range: Range)

  datatype TermError = MalformedSource    // SRC-ID-MALFORMED, of a variable's origin

  // Whether VersionSet.from_constraint takes a string; any function will do.
  type Parses = string -> bool

  function EntryName(e: RequireEntry): Option<string> {
    match e
    case NamedRequire(name, _, _, _) => Some(name)
    case UrlRequire(url, _, _, declared, _) => if declared.Some? then declared else NameFromUrl(url)
  }

  /** Entries that make no term: the compiler itself, and URLs without a name. */
  predicate Skipped(e: RequireEntry) {
    EntryName(e).None? || (e.NamedRequire? && e.name == "nim")
  }

  function RequirementOf(e: RequireEntry, name: string): Requirement {
    match e
    case NamedRequire(_, _, _, ns) => Requirement(name, ns, None, None)
    case UrlRequire(url, ref, _, _, _) => Requirement(name, None, Some(url), Some(ref))
  }

  function KeyOfEntry(s: State, e: RequireEntry, cx: Reconcile.Context): Option<SolverKey> {
    if EntryName(e).None? then None else VariableFor(s, RequirementOf(e, EntryName(e).value), cx)
  }

  function RangeOf(e: RequireEntry, cx: Reconcile.Context, parses: Parses): Range {
    if e.UrlRequire? || e.name in cx.byName || e.constraint == "" || !parses(e.constraint) then Full
    else Within(e.constraint)
  }

  // An entry that makes a term, with its variable.
  datatype Keyed = Keyed(key: SolverKey, entry: RequireEntry)

  /** The entries that make terms, in order; None if computing some variable raises. */
  function KeyedAll(s: State, es: seq<RequireEntry>, cx: Reconcile.Context): Option<seq<Keyed>> {
    if es == [] then Some([])
    else
      var e, init := es[|es| - 1], KeyedAll(s, es[..|es| - 1], cx);
      if init.None? || Skipped(e) then init
      else
        match KeyOfEntry(s, e, cx)
        case None => None
        case Some(key) => Some(init.value + [Keyed(key, e)])
  }

  function Vars(ks: seq<Keyed>): set<string> {
    set k | k in ks :: k.key.identity
  }

  /** Of every variable the entry that brings it up first. */
  function Firsts(ks: seq<Keyed>): seq<Keyed> {
    if ks == [] then []
    else
      var k, init := ks[|ks| - 1], ks[..|ks| - 1];
      Firsts(init) + (if k.key.identity in Vars(init) then [] else [k])
  }

  function TermsOf(ks: seq<Keyed>, cx: Reconcile.Context, parses: Parses): (r: seq<Term>)
    ensures |r| == |ks| && forall i :: 0 <= i < |ks| ==> r[i] == Term(ks[i].key, RangeOf(ks[i].entry, cx, parses))
  {
    seq(|ks|, i requires 0 <= i < |ks| => Term(ks[i].key, RangeOf(ks[i].entry, cx, parses)))
  }

  function KeysOf(ks: seq<Keyed>): (r: seq<SolverKey>)
    ensures |r| == |ks| && forall i :: 0 <= i < |ks| ==> r[i] == ks[i].key
  {
    seq(|ks|, i requires 0 <= i < |ks| => ks[i].key)
  }

  predicate Conditional(ks: seq<Keyed>, v: string, i: nat)
    requires i < |ks|
  {
    ks[i].key.identity == v && ks[i].entry.predicates != []
  }

  /** The conditions a variable is required under, as authored. */
  function PredicatesOf(ks: seq<Keyed>, v: string): seq<seq<Predicate>> {
    if ks == [] then []
    else
      var n := |ks| - 1;
      PredicatesOf(ks[..n], v) + (if Conditional(ks, v, n) then [ks[n].entry.predicates] else [])
  }

  function PredicateMap(ks: seq<Keyed>): map<string, seq<seq<Predicate>>> {
    map v | v in Vars(ks) && PredicatesOf(ks, v) != [] :: PredicatesOf(ks, v)
  }

  // requires_predicates.setdefault(v, []).append(ps)
  function Append(m: map<string, seq<seq<Predicate>>>, v: string, ps: seq<Predicate>): map<string, seq<seq<Predicate>>> {
    m[v := (if v in m then m[v] else []) + [ps]]
  }

  datatype Terms = Terms(terms: seq<Term>, names: seq<SolverKey>, predicates: map<string, seq<seq<Predicate>>>)

  function TermsFrom(ks: seq<Keyed>, cx: Reconcile.Context, parses: Parses): Terms {
    Terms(TermsOf(Firsts(ks), cx, parses), KeysOf(Firsts(ks)), PredicateMap(ks))
  }

  /** edgeset_to_terms, as what it returns or raises. */
  function EdgeTermsOf(s: State, es: seq<RequireEntry>, cx: Reconcile.Context, parses: Parses): Result<Terms, TermError> {
    match KeyedAll(s, es, cx)
    case None => Err(MalformedSource)
    case Some(ks) => Ok(TermsFrom(ks, cx, parses))
  }

  lemma {:induction false} KeyErrorSticks(s: State, es: seq<RequireEntry>, i: nat, cx: Reconcile.Context)
    requires i <= |es| && KeyedAll(s, es[..i], cx).None?
    ensures KeyedAll(s, es, cx).None?
    decreases |es|
  {
    if i == |es| {
      assert es[..i] == es;
    } else {
      assert es[..|es| - 1][..i] == es[..i];
      KeyErrorSticks(s, es[..|es| - 1], i, cx);
    }
  }

  // One more entry: what the loop does to its three collections.
  lemma TermsNext(ks: seq<Keyed>, k: Keyed, cx: Reconcile.Context, parses: Parses)
    ensures Vars(ks + [k]) == Vars(ks) + {k.key.identity}
    ensures var before, after := TermsFrom(ks, cx, parses), TermsFrom(ks + [k], cx, parses);
            var isNew := k.key.identity !in Vars(ks);
            && after.terms == before.terms + (if isNew then [Term(k.key, RangeOf(k.entry, cx, parses))] else [])
            && after.names == before.names + (if isNew then [k.key] else [])
            && after.predicates == (if k.entry.predicates == [] then before.predicates
                                    else Append(before.predicates, k.key.identity, k.entry.predicates))
  {
    var longer := ks + [k];
    assert longer[..|ks|] == ks;
    forall x
      ensures x in longer <==> x in ks || x == k
    {
    }
    forall v
      ensures v in Vars(longer) <==> v in Vars(ks) || v == k.key.identity
    {
    }
    PredicatesNext(ks, k);
  }

  lemma PredicatesNext(ks: seq<Keyed>, k: Keyed)
    requires Vars(ks + [k]) == Vars(ks) + {k.key.identity}
    ensures PredicateMap(ks + [k]) == (if k.entry.predicates == [] then PredicateMap(ks)
                                       else Append(PredicateMap(ks), k.key.identity, k.entry.predicates))
  {
    assert (ks + [k])[..|ks|] == ks;
    Unseen(ks, k.key.identity);
    var after := PredicateMap(ks + [k]);
    var before := PredicateMap(ks);
    var expected := if k.entry.predicates == [] then before else Append(before, k.key.identity, k.entry.predicates);
    forall v
      ensures v in after <==> v in expected
      ensures v in after ==> after[v] == expected[v]
    {
      assert PredicatesOf(ks + [k], v) ==
             PredicatesOf(ks, v) + (if Conditional(ks + [k], v, |ks|) then [k.entry.predicates] else []);
    }
  }

  lemma {:induction false} Unseen(ks: seq<Keyed>, v: string)
    ensures v !in Vars(ks) ==> PredicatesOf(ks, v) == []
  {
    if ks != [] {
      var n := |ks| - 1;
      Unseen(ks[..n], v);
      assert forall x :: x in ks[..n] ==> x in ks;
      assert ks[n] in ks;
    }
  }

  method EdgesetToTerms(s: State, es: seq<RequireEntry>, cx: Reconcile.Context, parses: Parses)
    returns (r: Result<Terms, TermError>)
    ensures r == EdgeTermsOf(s, es, cx, parses)
  {
    var terms: seq<Term>, names: seq<SolverKey>, predicates: map<string, seq<seq<Predicate>>> := [], [], map[];
    var seen: set<string> := {};
    ghost var ks: seq<Keyed> := [];
    for i := 0 to |es|
      invariant KeyedAll(s, es[..i], cx) == Some(ks)
      invariant Terms(terms, names, predicates) == TermsFrom(ks, cx, parses) && seen == Vars(ks)
    {
      assert es[..i + 1][..i] == es[..i];
      var entry := es[i];
      if !Skipped(entry) {
        var key := KeyOfEntry(s, entry, cx);
        if key.None? {
          KeyErrorSticks(s, es, i + 1, cx);
          return Err(MalformedSource);
        }
        TermsNext(ks, Keyed(key.value, entry), cx, parses);
        if key.value.identity !in seen {
          terms := terms + [Term(key.value, RangeOf(entry, cx, parses))];
          names := names + [key.value];
          seen := seen + {key.value.identity};
        }
        if entry.predicates != [] {
          predicates := Append(predicates, key.value.identity, entry.predicates);
        }
        ks := ks + [Keyed(key.value, entry)];
      }
    }
    assert es[..|es|] == es;
    return Ok(Terms(terms, names, predicates));
  }

  // ---- What the terms are ---------------------------------------------------------------------

  ghost predicate Ascending(places: seq<nat>) {
    forall i, j :: 0 <= i < j < |places| ==> places[i] < places[j]
  }

  ghost predicate Below(places: seq<nat>, n: nat) {
    forall p :: p in places ==> p < n
  }

  lemma AscendingAppend(places: seq<nat>, n: nat)
    requires Ascending(places) && Below(places, n)
    ensures Ascending(places + [n]) && Below(places + [n], n + 1)
  {
    assert forall i :: 0 <= i < |places| ==> places[i] in places;
  }

  /** Entry `n` is the first with its variable. */
  predicate BringsUp(ks: seq<Keyed>, n: nat)
    requires n < |ks|
  {
    forall j :: 0 <= j < n ==> ks[j].key.identity != ks[n].key.identity
  }

  // Where the entries stand that bring up a variable first, and where those of a variable that
  // are under a condition.
  function FirstPositions(ks: seq<Keyed>): seq<nat> {
    if ks == [] then []
    else
      var n := |ks| - 1;
      FirstPositions(ks[..n]) + (if BringsUp(ks, n) then [n] else [])
  }

  function Positions(ks: seq<Keyed>, v: string): seq<nat> {
    if ks == [] then []
    else
      var n := |ks| - 1;
      Positions(ks[..n], v) + (if Conditional(ks, v, n) then [n] else [])
  }

  lemma {:induction false} PositionsAscend(ks: seq<Keyed>, v: string)
    ensures Ascending(FirstPositions(ks)) && Below(FirstPositions(ks), |ks|)
    ensures Ascending(Positions(ks, v)) && Below(Positions(ks, v), |ks|)
  {
    if ks != [] {
      var n := |ks| - 1;
      PositionsAscend(ks[..n], v);
      AscendingAppend(FirstPositions(ks[..n]), n);
      AscendingAppend(Positions(ks[..n], v), n);
    }
  }

  lemma {:induction false} PositionsAre(ks: seq<Keyed>, v: string, n: nat)
    requires n < |ks|
    ensures n in FirstPositions(ks) <==> BringsUp(ks, n)
    ensures n in Positions(ks, v) <==> Conditional(ks, v, n)
  {
    var m := |ks| - 1;
    if n < m {
      PositionsAre(ks[..m], v, n);
      assert BringsUp(ks[..m], n) <==> BringsUp(ks, n);
      assert Conditional(ks[..m], v, n) <==> Conditional(ks, v, n);
    } else {
      PositionsAscend(ks[..m], v);
    }
  }

  lemma SeenBefore(ks: seq<Keyed>)
    requires ks != []
    ensures BringsUp(ks, |ks| - 1) <==> ks[|ks| - 1].key.identity !in Vars(ks[..|ks| - 1])
  {
    var n := |ks| - 1;
    assert forall j :: 0 <= j < n ==> ks[..n][j] in ks[..n];
  }

  lemma {:induction false} FirstsAt(ks: seq<Keyed>, i: nat)
    requires i < |FirstPositions(ks)|
    ensures |Firsts(ks)| == |FirstPositions(ks)|
    ensures FirstPositions(ks)[i] < |ks| && Firsts(ks)[i] == ks[FirstPositions(ks)[i]]
    ensures BringsUp(ks, FirstPositions(ks)[i])
  {
    FirstsLength(ks);
    var n := |ks| - 1;
    if i < |FirstPositions(ks[..n])| {
      FirstsAt(ks[..n], i);
    } else {
      FirstsLength(ks[..n]);
    }
  }

  lemma {:induction false} FirstsLength(ks: seq<Keyed>)
    ensures |Firsts(ks)| == |FirstPositions(ks)|
  {
    if ks != [] {
      FirstsLength(ks[..|ks| - 1]);
      SeenBefore(ks);
    }
  }

  lemma {:induction false} PredicatesAt(ks: seq<Keyed>, v: string, i: nat)
    requires i < |Positions(ks, v)|
    ensures |PredicatesOf(ks, v)| == |Positions(ks, v)|
    ensures Positions(ks, v)[i] < |ks| && PredicatesOf(ks, v)[i] == ks[Positions(ks, v)[i]].entry.predicates
  {
    PredicatesLength(ks, v);
    var n := |ks| - 1;
    if i < |Positions(ks[..n], v)| {
      PredicatesAt(ks[..n], v, i);
    } else {
      PredicatesLength(ks[..n], v);
    }
  }

  lemma {:induction false} PredicatesLength(ks: seq<Keyed>, v: string)
    ensures |PredicatesOf(ks, v)| == |Positions(ks, v)|
  {
    if ks != [] {
      PredicatesLength(ks[..|ks| - 1], v);
    }
  }

  /** One term to a variable: the terms stand for the entries that bring up a variable first, in
      the order of the entries, each with its own entry's range; and the names go with them. */
  lemma OneTermPerVariable(s: State, es: seq<RequireEntry>, cx: Reconcile.Context, parses: Parses)
    requires EdgeTermsOf(s, es, cx, parses).Ok?
    ensures var r, ks := EdgeTermsOf(s, es, cx, parses).value, KeyedAll(s, es, cx).value;
            var places := FirstPositions(ks);
            && Ascending(places) && (forall n :: 0 <= n < |ks| ==> (n in places <==> BringsUp(ks, n)))
            && |r.terms| == |r.names| == |places|
            && forall i :: 0 <= i < |places| ==>
                 && r.names[i] == r.terms[i].key && places[i] < |ks|
                 && r.terms[i] == Term(ks[places[i]].key, RangeOf(ks[places[i]].entry, cx, parses))
  {
    var ks := KeyedAll(s, es, cx).value;
    PositionsAscend(ks, "");
    FirstsLength(ks);
    forall n | 0 <= n < |ks|
      ensures n in FirstPositions(ks) <==> BringsUp(ks, n)
    {
      PositionsAre(ks, "", n);
    }
    forall i | 0 <= i < |FirstPositions(ks)|
      ensures FirstPositions(ks)[i] < |ks| && Firsts(ks)[i] == ks[FirstPositions(ks)[i]]
    {
      FirstsAt(ks, i);
    }
  }

  /** So no variable has two terms, and the variables are those of the entries that make terms. */
  lemma TermsAreDistinct(s: State, es: seq<RequireEntry>, cx: Reconcile.Context, parses: Parses)
    requires EdgeTermsOf(s, es, cx, parses).Ok?
    ensures var r, ks := EdgeTermsOf(s, es, cx, parses).value, KeyedAll(s, es, cx).value;
            && (forall i, j :: 0 <= i < j < |r.terms| ==> r.terms[i].key.identity != r.terms[j].key.identity)
            && forall v :: v in Vars(ks) <==> exists i :: 0 <= i < |r.terms| && r.terms[i].key.identity == v
  {
    var r, ks := EdgeTermsOf(s, es, cx, parses).value, KeyedAll(s, es, cx).value;
    FirstsAre(ks);
    forall v
      ensures v in Vars(ks) <==> exists i :: 0 <= i < |r.terms| && r.terms[i].key.identity == v
    {
      if v in Vars(ks) {
        var i :| 0 <= i < |Firsts(ks)| && Firsts(ks)[i].key.identity == v;
        assert r.terms[i].key.identity == v;
      } else {
        forall i | 0 <= i < |r.terms|
          ensures r.terms[i].key.identity != v
        {
          assert Firsts(ks)[i] in Firsts(ks);
        }
      }
    }
  }

  lemma {:induction false} FirstsAre(ks: seq<Keyed>)
    ensures forall k :: k in Firsts(ks) ==> k in ks
    ensures forall v :: v in Vars(ks) <==> exists i :: 0 <= i < |Firsts(ks)| && Firsts(ks)[i].key.identity == v
    ensures forall i, j :: 0 <= i < j < |Firsts(ks)| ==> Firsts(ks)[i].key.identity != Firsts(ks)[j].key.identity
  {
    if ks != [] {
      var init, last := ks[..|ks| - 1], ks[|ks| - 1];
      FirstsAre(init);
      assert forall k :: k in ks <==> k in init || k == last;
      forall v
        ensures v in Vars(ks) <==> exists i :: 0 <= i < |Firsts(ks)| && Firsts(ks)[i].key.identity == v
      {
        if v in Vars(init) {
          var i :| 0 <= i < |Firsts(init)| && Firsts(init)[i].key.identity == v;
          assert Firsts(ks)[i].key.identity == v;
        } else if v in Vars(ks) {
          assert v == last.key.identity && Firsts(ks)[|Firsts(ks)| - 1] == last;
        }
        if i :| 0 <= i < |Firsts(ks)| && Firsts(ks)[i].key.identity == v {
          assert Firsts(ks)[i] in ks;
        }
      }
    }
  }

  /** No condition is lost or moved: what is kept for a variable are the predicate lists of
      exactly those of its entries that have any, in the order of the entries. */
  lemma ConditionsKept(s: State, es: seq<RequireEntry>, cx: Reconcile.Context, parses: Parses, v: string)
    requires EdgeTermsOf(s, es, cx, parses).Ok?
    ensures var m, ks := EdgeTermsOf(s, es, cx, parses).value.predicates, KeyedAll(s, es, cx).value;
            var places := Positions(ks, v);
            && Ascending(places) && (forall n :: 0 <= n < |ks| ==> (n in places <==> Conditional(ks, v, n)))
            && (v in m <==> places != [])
            && (v in m ==> |m[v]| == |places|)
            && (v in m ==> forall i :: 0 <= i < |places| ==> places[i] < |ks| && m[v][i] == ks[places[i]].entry.predicates)
  {
    var ks := KeyedAll(s, es, cx).value;
    PositionsAscend(ks, v);
    PredicatesLength(ks, v);
    Unseen(ks, v);
    forall n | 0 <= n < |ks|
      ensures n in Positions(ks, v) <==> Conditional(ks, v, n)
    {
      PositionsAre(ks, v, n);
    }
    forall i | 0 <= i < |Positions(ks, v)|
      ensures Positions(ks, v)[i] < |ks| && PredicatesOf(ks, v)[i] == ks[Positions(ks, v)[i]].entry.predicates
    {
      PredicatesAt(ks, v, i);
    }
  }

  // ---- What the search goes on with ---------------------------------------------------------------

  // A UrlDep or a NamedDep of the manifest module.
  datatype Found =
    | FoundUrl(name: string, git: string, ref: string, flags: seq<string>)
    | FoundNamed(name: string, constraint: string, namespace: Option<string>)

  datatype FoundError = BadConstraint    // MAN-DEP-NAMED-CONSTRAINT

  function FoundOf(e: RequireEntry): Found {
    match e
    case UrlRequire(url, ref, _, declared, flags) =>
      FoundUrl(if declared.Some? then declared.value else UrlToName(url), url, ref, flags)
    case NamedRequire(name, constraint, _, ns) => FoundNamed(name, constraint, ns)
  }

  predicate Constructible(e: RequireEntry, parses: Parses) {
    e.NamedRequire? ==> parses(e.constraint)
  }

  function FoundAll(es: seq<RequireEntry>): (r: seq<Found>)
    ensures |r| == |es| && forall i :: 0 <= i < |es| ==> r[i] == FoundOf(es[i])
  {
    seq(|es|, i requires 0 <= i < |es| => FoundOf(es[i]))
  }

  /** edgeset_to_bfs_deps: every entry becomes a dependency; a constraint that does not parse,
      which edgeset_to_terms takes for no constraint, raises here. */
  method EdgesetToBfsDeps(es: seq<RequireEntry>, parses: Parses) returns (r: Result<seq<Found>, FoundError>)
    ensures r == if forall e :: e in es ==> Constructible(e, parses) then Ok(FoundAll(es)) else Err(BadConstraint)
  {
    var found: seq<Found> := [];
    for i := 0 to |es|
      invariant found == FoundAll(es[..i])
      invariant forall e :: e in es[..i] ==> Constructible(e, parses)
    {
      if !Constructible(es[i], parses) {
        assert es[i] in es;
        return Err(BadConstraint);
      }
      found := found + [FoundOf(es[i])];
      assert es[..i + 1] == es[..i] + [es[i]];
    }
    assert es[..|es|] == es;
    return Ok(found);
  }

  /** The variable a dependency will have. */
  function KeyOfFound(s: State, d: Found, cx: Reconcile.Context): Option<SolverKey> {
    VariableFor(s,
      match d
      case FoundUrl(name, git, ref, _) => Requirement(name, None, Some(git), Some(ref))
      case FoundNamed(name, _, ns) => Requirement(name, ns, None, None), cx)
  }

  ghost predicate FoundVariable(s: State, ds: seq<Found>, cx: Reconcile.Context, v: string) {
    exists d :: d in ds && KeyOfFound(s, d, cx).Some? && KeyOfFound(s, d, cx).value.identity == v
  }

  lemma EntryAndFound(s: State, e: RequireEntry, cx: Reconcile.Context)
    requires !Skipped(e)
    ensures KeyOfFound(s, FoundOf(e), cx) == KeyOfEntry(s, e, cx)
  {
  }

  lemma {:induction false} KeyedOrigins(s: State, es: seq<RequireEntry>, cx: Reconcile.Context)
    requires KeyedAll(s, es, cx).Some?
    ensures forall k :: k in KeyedAll(s, es, cx).value ==>
              k.entry in es && !Skipped(k.entry) && KeyOfEntry(s, k.entry, cx) == Some(k.key)
    ensures forall e :: e in es && !Skipped(e) ==> exists k :: k in KeyedAll(s, es, cx).value && k.entry == e
  {
    if es != [] {
      var init, last := es[..|es| - 1], es[|es| - 1];
      assert forall e :: e in es <==> e in init || e == last;
      KeyedOrigins(s, init, cx);
      var ks, before := KeyedAll(s, es, cx).value, KeyedAll(s, init, cx).value;
      assert forall k :: k in before ==> k in ks;
      if !Skipped(last) {
        assert ks[|before|].entry == last && ks[|before|] in ks;
      }
    }
  }

  lemma FoundIn(es: seq<RequireEntry>, e: RequireEntry)
    requires e in es
    ensures FoundOf(e) in FoundAll(es)
  {
    var i :| 0 <= i < |es| && es[i] == e;
    assert FoundAll(es)[i] == FoundOf(e);
  }

  lemma TermIsFound(s: State, es: seq<RequireEntry>, cx: Reconcile.Context, v: string)
    requires KeyedAll(s, es, cx).Some? && v in Vars(KeyedAll(s, es, cx).value)
    ensures FoundVariable(s, FoundAll(es), cx, v)
  {
    KeyedOrigins(s, es, cx);
    var k :| k in KeyedAll(s, es, cx).value && k.key.identity == v;
    EntryAndFound(s, k.entry, cx);
    FoundIn(es, k.entry);
  }

  lemma FoundIsTerm(s: State, es: seq<RequireEntry>, cx: Reconcile.Context, e: RequireEntry)
    requires KeyedAll(s, es, cx).Some? && e in es && !Skipped(e) && KeyOfFound(s, FoundOf(e), cx).Some?
    ensures KeyOfFound(s, FoundOf(e), cx).value.identity in Vars(KeyedAll(s, es, cx).value)
  {
    KeyedOrigins(s, es, cx);
    EntryAndFound(s, e, cx);
    var k :| k in KeyedAll(s, es, cx).value && k.entry == e;
    assert k.key.identity in Vars(KeyedAll(s, es, cx).value);
  }

  /** The search and the solver agree on what is required: with the bindings as they are, the
      variables of the dependencies are those of the terms and, beyond them, only those of the
      entries that make no term. */
  lemma SearchCoversTerms(s: State, es: seq<RequireEntry>, cx: Reconcile.Context, v: string)
    requires KeyedAll(s, es, cx).Some?
    ensures FoundVariable(s, FoundAll(es), cx, v) <==>
            || v in Vars(KeyedAll(s, es, cx).value)
            || exists e :: e in es && Skipped(e) && FoundVariable(s, [FoundOf(e)], cx, v)
  {
    var ds := FoundAll(es);
    if v in Vars(KeyedAll(s, es, cx).value) {
      TermIsFound(s, es, cx, v);
    }
    if d :| d in ds && KeyOfFound(s, d, cx).Some? && KeyOfFound(s, d, cx).value.identity == v {
      var i :| 0 <= i < |ds| && ds[i] == d;
      if Skipped(es[i]) {
        assert d in [FoundOf(es[i])];
        assert es[i] in es && FoundVariable(s, [FoundOf(es[i])], cx, v);
      } else {
        FoundIsTerm(s, es, cx, es[i]);
      }
    }
    if e :| e in es && Skipped(e) && FoundVariable(s, [FoundOf(e)], cx, v) {
      FoundIn(es, e);
    }
  }
}
