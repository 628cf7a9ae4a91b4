// Where a package's edges are read from, decided once for each origin and version.
module EdgeSources {
  import opened Common
  import opened Edges
  import opened SourceId
  import DepDecl
  import DepDeclRoundTrip
  import Kdl
  import EpochCommitment

  datatype EdgeError =
    | FetchFailed | HashMismatch | Unparsable | SchemaUnsupported | SchemaMismatch | OtherError(slug: string)

  type Version = EpochCommitment.Version

  // What is known of the package: where its tree is, what its index entry points at, whether
  // an override redirected it, and whether the tree has a milpa.kdl.
  datatype Context = Context(path: string, depDecl: Option<string>, schemaVersion: Option<int>,
                             isOverridden: bool, hasMilpaKdl: bool)

  // A source that reads the tree: the .nimble scan or the milpa.kdl projection.
  type TreeSource = (string, Context) -> Result<EdgeSet, EdgeError>

  // The store DepDecl artifacts are got from, which verifies their hash.
  type ArtifactStore = string -> Result<string, EdgeError>

  datatype Sources = Sources(nimble: TreeSource, milpaKdl: TreeSource, depDecl: Option<ArtifactStore>, strict: bool)

  const MAX_SCHEMA_VERSION := 0

  /** DepDeclEdgeSource.edges_for */
  function DepDeclEdges(store: ArtifactStore, pointer: string, indexed: Option<int>): Result<EdgeSet, EdgeError> {
    match store(pointer)
    case Err(e) => Err(e)
    case Ok(text) =>
      match DepDecl.Parse(text)
      case Err(_) => Err(Unparsable)
      case Ok((es, version)) =>
        if version > MAX_SCHEMA_VERSION then Err(SchemaUnsupported)
        else if indexed.Some? && version != indexed.value then Err(SchemaMismatch)
        else Ok(es)
  }

  function TreeEdges(src: Sources, name: string, cx: Context): Result<EdgeSet, EdgeError> {
    if cx.hasMilpaKdl then src.milpaKdl(name, cx) else src.nimble(name, cx)
  }

  predicate Attested(src: Sources, cx: Context) {
    !cx.isOverridden && cx.depDecl.Some? && src.depDecl.Some?
  }

  /** _resolve_edges_pure */
  function ResolvePure(src: Sources, name: string, cx: Context): Result<EdgeSet, EdgeError> {
    if cx.isOverridden then TreeEdges(src, name, cx)
    else if cx.depDecl.Some? && src.depDecl.Some? then
      var r := DepDeclEdges(src.depDecl.value, cx.depDecl.value, cx.schemaVersion);
      if r == Err(FetchFailed) && !src.strict then src.nimble(name, cx) else r
    else TreeEdges(src, name, cx)
  }

  /** An attested package gets the attested edges, or the error, and nothing else: only an
      artifact that could not be fetched, and only without strictness, lets the tree speak. An
      override silences the attestation altogether, and without one the tree speaks anyway. */
  lemma AttestationHolds(src: Sources, name: string, cx: Context)
    ensures Attested(src, cx) ==>
              var attested := DepDeclEdges(src.depDecl.value, cx.depDecl.value, cx.schemaVersion);
              && (attested.Ok? || src.strict || attested.error != FetchFailed ==> ResolvePure(src, name, cx) == attested)
              && (ResolvePure(src, name, cx) != attested ==> ResolvePure(src, name, cx) == src.nimble(name, cx))
    ensures !Attested(src, cx) ==>
              forall store, strict ::
                var silent := cx.(depDecl := if cx.isOverridden then cx.depDecl else None);
                ResolvePure(src.(depDecl := store, strict := strict), name, silent) ==
                (if cx.hasMilpaKdl then src.milpaKdl(name, silent) else src.nimble(name, silent))
  {
  }

  /** What the registry's printer wrote of an edge set is what the resolver gets: from a store
      that has the artifact, the edges come back as they were, if they are writable and of a
      schema version this resolver knows and the index names; and otherwise it is told why not. */
  lemma PrintedEdgesComeBack(src: Sources, name: string, cx: Context, es: DepDecl.PlainEdges, version: nat)
    requires Attested(src, cx) && src.depDecl.value(cx.depDecl.value) == Ok(DepDecl.Serialize(es, version))
    ensures ResolvePure(src, name, cx) ==
            if !DepDeclRoundTrip.WritableEdges(es) || !Kdl.NestingOk(DepDecl.Serialize(es, version)) then Err(Unparsable)
            else if version > MAX_SCHEMA_VERSION then Err(SchemaUnsupported)
            else if cx.schemaVersion.Some? && cx.schemaVersion.value != version then Err(SchemaMismatch)
            else Ok(EdgeSet(DepDeclRoundTrip.ParsedAll(es.entries), es.srcDir, DepDeclArtifact))
  {
    DepDeclRoundTrip.RoundTrip(es, version);
  }

  // ---- Sealing ---------------------------------------------------------------------------

  // A call: what is asked, for which origin and version.
  datatype Call = Call(name: string, version: Version, cx: Context, origin: SourceId, src: Sources)

  datatype Key = Key(origin: SourceId, version: Version)

  /** The cache key. Versions are equal up to their build metadata. */
  function KeyOf(c: Call): Key {
    Key(c.origin, c.version.(build := ""))
  }

  lemma KeysIgnoreBuild(c: Call, d: Call)
    ensures KeyOf(c) == KeyOf(d) <==> c.origin == d.origin && EpochCommitment.CompareVersion(c.version, d.version) == 0
  {
    PreEqual(c.version.pre, d.version.pre);
  }

  lemma {:induction false} PreEqual(a: seq<EpochCommitment.PreId>, b: seq<EpochCommitment.PreId>)
    ensures EpochCommitment.ComparePre(a, b) == 0 <==> a == b
  {
    if a != [] && b != [] {
      PreEqual(a[1..], b[1..]);
      assert a == [a[0]] + a[1..] && b == [b[0]] + b[1..];
    }
  }

  type Cache = map<Key, EdgeSet>

  function Pure(c: Call): Result<EdgeSet, EdgeError> {
    ResolvePure(c.src, c.name, c.cx)
  }

  /** resolve_edges: the sealed edges, or the pure dispatch, sealed if it did not raise. */
  function Resolve(cache: Cache, c: Call): (Cache, Result<EdgeSet, EdgeError>) {
    if KeyOf(c) in cache then (cache, Ok(cache[KeyOf(c)]))
    else
      match Pure(c)
      case Err(e) => (cache, Err(e))
      case Ok(es) => (cache[KeyOf(c) := es], Ok(es))
  }

  function Run(cache: Cache, calls: seq<Call>): (r: (Cache, seq<Result<EdgeSet, EdgeError>>))
    ensures |r.1| == |calls|
  {
    if calls == [] then (cache, [])
    else
      var (mid, results) := Run(cache, calls[..|calls| - 1]);
      var (last, result) := Resolve(mid, calls[|calls| - 1]);
      (last, results + [result])
  }

  class EdgeCache {
    var sealed: Cache

    constructor ()
      ensures sealed == map[]
    {
      sealed := map[];
    }

    method ResolveEdges(c: Call) returns (r: Result<EdgeSet, EdgeError>)
      modifies this
      ensures (sealed, r) == Resolve(old(sealed), c)
    {
      var key := KeyOf(c);
      if key in sealed {
        return Ok(sealed[key]);
      }
      r := Pure(c);
      if r.Ok? {
        sealed := sealed[key := r.value];
      }
    }
  }

  // One more call.
  lemma RunNext(cache: Cache, calls: seq<Call>, n: nat)
    requires n < |calls|
    ensures var (before, _) := Run(cache, calls[..n]);
            && Run(cache, calls[..n + 1]).0 == Resolve(before, calls[n]).0
            && Run(cache, calls[..n + 1]).1 == Run(cache, calls[..n]).1 + [Resolve(before, calls[n]).1]
  {
    assert calls[..n + 1][..n] == calls[..n];
  }

  lemma ResultsStay(cache: Cache, calls: seq<Call>, i: nat, n: nat)
    requires i < n < |calls|
    ensures Run(cache, calls[..n + 1]).1[i] == Run(cache, calls[..n]).1[i]
  {
    RunNext(cache, calls, n);
  }

  /** What the i-th call gets: what was sealed before, or what its own dispatch gives, as the
      cache stands when it is made. */
  lemma {:induction false} ResultAt(cache: Cache, calls: seq<Call>, i: nat, n: nat)
    requires i < n <= |calls|
    ensures Run(cache, calls[..n]).1[i] == Resolve(Run(cache, calls[..i]).0, calls[i]).1
  {
    if i < n - 1 {
      ResultsStay(cache, calls, i, n - 1);
      ResultAt(cache, calls, i, n - 1);
    } else {
      RunNext(cache, calls, i);
    }
  }

  ghost predicate Extends(before: Cache, after: Cache) {
    forall k :: k in before ==> k in after && after[k] == before[k]
  }

  lemma RunExtends(cache: Cache, calls: seq<Call>, n: nat)
    requires n < |calls|
    ensures Extends(Run(cache, calls[..n]).0, Run(cache, calls[..n + 1]).0)
  {
    RunNext(cache, calls, n);
  }

  lemma ExtendsTransitive(a: Cache, b: Cache, c: Cache)
    requires Extends(a, b) && Extends(b, c)
    ensures Extends(a, c)
  {
  }

  /** The cache only grows, whatever is asked. */
  lemma {:induction false} CacheGrows(cache: Cache, calls: seq<Call>, m: nat, n: nat)
    requires m <= n <= |calls|
    ensures Extends(Run(cache, calls[..m]).0, Run(cache, calls[..n]).0)
  {
    if m < n {
      CacheGrows(cache, calls, m, n - 1);
      RunExtends(cache, calls, n - 1);
      ExtendsTransitive(Run(cache, calls[..m]).0, Run(cache, calls[..n - 1]).0, Run(cache, calls[..n]).0);
    }
  }

  /** A call that raises changes nothing; one that does not has its edges sealed from then on. */
  lemma CallSeals(cache: Cache, calls: seq<Call>, i: nat, n: nat)
    requires i < n <= |calls|
    ensures var result, sealed := Run(cache, calls[..n]).1[i], Run(cache, calls[..n]).0;
            && (result.Err? ==> Run(cache, calls[..i + 1]).0 == Run(cache, calls[..i]).0)
            && (result.Ok? ==> KeyOf(calls[i]) in sealed && sealed[KeyOf(calls[i])] == result.value)
  {
    ResultAt(cache, calls, i, n);
    RunNext(cache, calls, i);
    CacheGrows(cache, calls, i + 1, n);
  }

  /** The first call for a key that succeeds settles it: every later one gets the same edges,
      whatever its name, its context and its sources. */
  lemma FirstSuccessSettles(cache: Cache, calls: seq<Call>, i: nat, j: nat)
    requires i < j < |calls| && KeyOf(calls[i]) == KeyOf(calls[j]) && Run(cache, calls).1[i].Ok?
    ensures Run(cache, calls).1[j] == Run(cache, calls).1[i]
  {
    assert calls[..|calls|] == calls;
    ResultAt(cache, calls, i, |calls|);
    ResultAt(cache, calls, i, j);
    CallSeals(cache, calls, i, j);
    ResultAt(cache, calls, j, |calls|);
  }

  // Whatever is sealed was some call's own result.
  lemma {:induction false} SealedOrigin(calls: seq<Call>, n: nat, k: Key)
    requires n <= |calls| && k in Run(map[], calls[..n]).0
    ensures exists i :: 0 <= i < n && KeyOf(calls[i]) == k && Pure(calls[i]) == Ok(Run(map[], calls[..n]).0[k])
  {
    if n > 0 {
      RunNext(map[], calls, n - 1);
      if k in Run(map[], calls[..n - 1]).0 {
        SealedOrigin(calls, n - 1, k);
      } else {
        assert KeyOf(calls[n - 1]) == k;
      }
    }
  }

  /** What one call for a key succeeds with, every later one for it comes to by itself. */
  ghost predicate Settled(calls: seq<Call>, i: nat, j: nat)
    requires i < |calls| && j < |calls|
  {
    KeyOf(calls[i]) == KeyOf(calls[j]) && Pure(calls[i]).Ok? ==> Pure(calls[j]) == Pure(calls[i])
  }

  function PureAll(calls: seq<Call>): (r: seq<Result<EdgeSet, EdgeError>>)
    ensures |r| == |calls| && forall i :: 0 <= i < |calls| ==> r[i] == Pure(calls[i])
  {
    seq(|calls|, i requires 0 <= i < |calls| => Pure(calls[i]))
  }

  /** The cache does not show exactly if a later call for a key never disagrees with an earlier
      one that succeeded; in particular if the dispatch depends on the key alone. */
  lemma CacheIsTransparent(calls: seq<Call>)
    ensures Run(map[], calls).1 == PureAll(calls) <==>
            forall i, j :: 0 <= i < j < |calls| ==> Settled(calls, i, j)
  {
    var results := Run(map[], calls).1;
    if results == PureAll(calls) {
      forall i, j | 0 <= i < j < |calls|
        ensures Settled(calls, i, j)
      {
        if KeyOf(calls[i]) == KeyOf(calls[j]) && Pure(calls[i]).Ok? {
          assert results[i] == Pure(calls[i]);
          FirstSuccessSettles(map[], calls, i, j);
        }
      }
    }
    if forall i, j :: 0 <= i < j < |calls| ==> Settled(calls, i, j) {
      forall j | 0 <= j < |calls|
        ensures results[j] == Pure(calls[j])
      {
        TransparentAt(calls, j);
      }
    }
  }

  lemma TransparentAt(calls: seq<Call>, j: nat)
    requires j < |calls| && forall i :: 0 <= i < j ==> Settled(calls, i, j)
    ensures Run(map[], calls).1[j] == Pure(calls[j])
  {
    assert calls[..|calls|] == calls;
    ResultAt(map[], calls, j, |calls|);
    var sealed := Run(map[], calls[..j]).0;
    if KeyOf(calls[j]) in sealed {
      SealedOrigin(calls, j, KeyOf(calls[j]));
      var i :| 0 <= i < j && KeyOf(calls[i]) == KeyOf(calls[j]) && Pure(calls[i]) == Ok(sealed[KeyOf(calls[j])]);
      assert Settled(calls, i, j);
    }
  }
}
