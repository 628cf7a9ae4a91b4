// Before the binding phase: root claims out of dependencies and overrides; and the solver
// variable a requirement is given before its own claim is submitted.
module Reconcile {
  import opened Common
  import opened SourceId
  import opened Binding

  const DEFAULT_REGISTRY_ALIAS := "tianguis"

  // What the pass reads besides its arguments: the namespace the registry records for a bare
  // name it knows unambiguously, and the URL clean-up of normalize_source.
  datatype Env = Env(lookup: string -> Option<string>, gitUrl: string -> string)

  datatype Target = Fixed(origin: SourceId) | RegistryTarget(name: string, namespace: Option<string>)
  datatype Override = Override(name: string, target: Target)

  datatype Dep =
    | UrlDep(name: string, git: string, ref: Option<string>, subpath: Option<string>)
    | NamedDep(name: string, qualifier: Option<string>)
    | TarballDep(name: string, url: string, subpath: Option<string>)
    | LocalDep(name: string, path: string)
    | MemberDep(name: string)

  function RegistryOrigin(name: string, namespace: Option<string>, env: Env): SourceId {
    Registry(DEFAULT_REGISTRY_ALIAS, if namespace.Some? then namespace else env.lookup(name), name)
  }

  function TargetOrigin(t: Target, env: Env): SourceId {
    match t
    case Fixed(origin) => origin
    case RegistryTarget(name, ns) => RegistryOrigin(name, ns, env)
  }

  /** The origin a declaration names for itself; a workspace member names none. */
  function DeclaredOrigin(d: Dep, env: Env): Option<SourceId> {
    match d
    case UrlDep(_, git, ref, subpath) => Some(Git(git, ref, subpath))
    case NamedDep(name, ns) => Some(RegistryOrigin(name, ns, env))
    case TarballDep(_, url, subpath) => Some(Tarball(url, subpath))
    case LocalDep(_, path) => Some(Local(path))
    case MemberDep(_) => None
  }

  function KeyOf(d: Dep): DepKey {
    DepKey(d.name, if d.NamedDep? then d.qualifier else None)
  }

  /** {ov.name: ov for ov in overrides}: the last of one name is kept. */
  function ByName(overrides: seq<Override>): map<string, Override> {
    if overrides == [] then map[]
    else
      var last := overrides[|overrides| - 1];
      ByName(overrides[..|overrides| - 1])[last.name := last]
  }

  // RES-BINDING-CONFLICT and SRC-ID-MALFORMED.
  datatype ReconcileError = DeclaredTwice | Malformed

  // The locals of the pass.
  datatype Pass = Pass(claims: seq<Claim>, seenNames: set<string>, seenKeys: set<DepKey>,
                       keySource: map<DepKey, SourceId>)

  function RawOrigin(d: Dep, byName: map<string, Override>, env: Env): Option<SourceId> {
    if d.name in byName then Some(TargetOrigin(byName[d.name].target, env)) else DeclaredOrigin(d, env)
  }

  function ClaimName(d: Dep, byName: map<string, Override>): string {
    if d.name in byName then d.name else SolverVar(KeyOf(d))
  }

  /** One turn of the loop over the declarations. */
  function AddDep(p: Pass, d: Dep, byName: map<string, Override>, env: Env): Result<Pass, ReconcileError> {
    var key := KeyOf(d);
    var q := p.(seenNames := p.seenNames + {d.name}, seenKeys := p.seenKeys + {key});
    var raw := RawOrigin(d, byName, env);
    if raw.None? then Ok(q)
    else
      match Normalize(raw.value, env.gitUrl)
      case None => Err(Malformed)
      case Some(source) =>
        if key in p.seenKeys then
          if key in p.keySource && p.keySource[key] != source then Err(DeclaredTwice) else Ok(q)
        else
          Ok(q.(keySource := q.keySource[key := source],
                claims := q.claims + [Claim(ClaimName(d, byName), source, true)]))
  }

  function AddDeps(deps: seq<Dep>, byName: map<string, Override>, env: Env): Result<Pass, ReconcileError> {
    if deps == [] then Ok(Pass([], {}, {}, map[]))
    else
      match AddDeps(deps[..|deps| - 1], byName, env)
      case Err(e) => Err(e)
      case Ok(p) => AddDep(p, deps[|deps| - 1], byName, env)
  }

  /** One turn of the loop that catches up on overrides no declaration brought up. */
  function AddOverride(p: Pass, ov: Override, env: Env): Result<Pass, ReconcileError> {
    if ov.name in p.seenNames then Ok(p)
    else
      match Normalize(TargetOrigin(ov.target, env), env.gitUrl)
      case None => Err(Malformed)
      case Some(source) =>
        Ok(p.(seenNames := p.seenNames + {ov.name}, claims := p.claims + [Claim(ov.name, source, true)]))
  }

  function AddOverrides(p: Result<Pass, ReconcileError>, ovs: seq<Override>, env: Env): Result<Pass, ReconcileError> {
    if ovs == [] || p.Err? then p
    else
      match AddOverrides(p, ovs[..|ovs| - 1], env)
      case Err(e) => Err(e)
      case Ok(q) => AddOverride(q, ovs[|ovs| - 1], env)
  }

  /** The claims the pass ends with, or what it raises. */
  function RootClaims(deps: seq<Dep>, ovs: seq<Override>, env: Env): Result<seq<Claim>, ReconcileError> {
    match AddOverrides(AddDeps(deps, ByName(ovs), env), ovs, env)
    case Err(e) => Err(e)
    case Ok(p) => Ok(p.claims)
  }

  lemma {:induction false} DepErrorSticks(deps: seq<Dep>, i: nat, byName: map<string, Override>, env: Env)
    requires i <= |deps| && AddDeps(deps[..i], byName, env).Err?
    ensures AddDeps(deps, byName, env) == AddDeps(deps[..i], byName, env)
    decreases |deps|
  {
    if i == |deps| {
      assert deps[..i] == deps;
    } else {
      assert deps[..|deps| - 1][..i] == deps[..i];
      DepErrorSticks(deps[..|deps| - 1], i, byName, env);
    }
  }

  lemma {:induction false} OverrideErrorSticks(p: Result<Pass, ReconcileError>, ovs: seq<Override>, i: nat, env: Env)
    requires i <= |ovs| && AddOverrides(p, ovs[..i], env).Err?
    ensures AddOverrides(p, ovs, env) == AddOverrides(p, ovs[..i], env)
    decreases |ovs|
  {
    if i == |ovs| {
      assert ovs[..i] == ovs;
    } else {
      assert ovs[..|ovs| - 1][..i] == ovs[..i];
      OverrideErrorSticks(p, ovs[..|ovs| - 1], i, env);
    }
  }

  method ReconcileRootClaims(deps: seq<Dep>, overrides: seq<Override>, env: Env)
    returns (r: Result<seq<Claim>, ReconcileError>)
    ensures r == RootClaims(deps, overrides, env)
  {
    var byName := ByName(overrides);
    var claims: seq<Claim> := [];
    var seenNames: set<string> := {};
    var seenKeys: set<DepKey> := {};
    var keySource: map<DepKey, SourceId> := map[];
    assert deps[..0] == [];
    var i := 0;
    while i < |deps|
      invariant 0 <= i <= |deps|
      invariant AddDeps(deps[..i], byName, env) == Ok(Pass(claims, seenNames, seenKeys, keySource))
    {
      var dep := deps[i];
      assert deps[..i + 1][..i] == deps[..i];
      i := i + 1;
      var key := KeyOf(dep);
      var firstTime := key !in seenKeys;
      seenKeys := seenKeys + {key};
      seenNames := seenNames + {dep.name};
      var raw := RawOrigin(dep, byName, env);
      if raw.None? {
        continue;
      }
      var source := Normalize(raw.value, env.gitUrl);
      if source.None? {
        DepErrorSticks(deps, i, byName, env);
        return Err(Malformed);
      }
      if !firstTime {
        if key in keySource && keySource[key] != source.value {
          DepErrorSticks(deps, i, byName, env);
          return Err(DeclaredTwice);
        }
        continue;
      }
      keySource := keySource[key := source.value];
      claims := claims + [Claim(ClaimName(dep, byName), source.value, true)];
    }
    assert deps[..i] == deps;
    ghost var p := AddDeps(deps, byName, env);
    assert overrides[..0] == [];
    i := 0;
    while i < |overrides|
      invariant 0 <= i <= |overrides|
      invariant AddOverrides(p, overrides[..i], env) == Ok(Pass(claims, seenNames, seenKeys, keySource))
    {
      var ov := overrides[i];
      assert overrides[..i + 1][..i] == overrides[..i];
      i := i + 1;
      if ov.name in seenNames {
        continue;
      }
      seenNames := seenNames + {ov.name};
      var source := Normalize(TargetOrigin(ov.target, env), env.gitUrl);
      if source.None? {
        OverrideErrorSticks(p, overrides, i, env);
        return Err(Malformed);
      }
      claims := claims + [Claim(ov.name, source.value, true)];
    }
    assert overrides[..i] == overrides;
    r := Ok(claims);
  }

  // ---- What the constructor is given ------------------------------------------------

  ghost predicate UniqueNames(ovs: seq<Override>) {
    forall i, j :: 0 <= i < j < |ovs| ==> ovs[i].name != ovs[j].name
  }

  ghost predicate IsKey(k: DepKey, deps: seq<Dep>, ovs: seq<Override>) {
    || (exists d :: d in deps && KeyOf(d) == k)
    || (exists ov :: ov in ovs && DepKey(ov.name, None) == k)
  }

  /** No two keys of the manifest are spelled alike. */
  ghost predicate NoAliases(deps: seq<Dep>, ovs: seq<Override>) {
    forall j, k :: IsKey(j, deps, ovs) && IsKey(k, deps, ovs) && SolverVar(j) == SolverVar(k) ==> j == k
  }

  /** No name or namespace with "::" in it, and no namespace ending in ':', is enough for that. */
  lemma EncodableKeysHaveNoAliases(deps: seq<Dep>, ovs: seq<Override>)
    requires forall k :: IsKey(k, deps, ovs) ==> Encodable(k)
    ensures NoAliases(deps, ovs)
  {
    forall j, k | IsKey(j, deps, ovs) && IsKey(k, deps, ovs) && SolverVar(j) == SolverVar(k)
      ensures j == k
    {
      EncodingRoundTrip(j);
      EncodingRoundTrip(k);
    }
  }

  /** So is the manifest's alphabet for names, which has no ':', whatever the namespaces. */
  lemma PlainNamesHaveNoAliases(deps: seq<Dep>, ovs: seq<Override>)
    requires forall k :: IsKey(k, deps, ovs) ==> ':' !in k.name
    ensures NoAliases(deps, ovs)
  {
    forall j, k | IsKey(j, deps, ovs) && IsKey(k, deps, ovs) && SolverVar(j) == SolverVar(k)
      ensures j == k
    {
      PlainNamesDiffer(j, k);
    }
  }

  lemma PlainNamesDiffer(j: DepKey, k: DepKey)
    requires ':' !in j.name && ':' !in k.name && SolverVar(j) == SolverVar(k)
    ensures j == k
  {
    if j.namespace.Some? {
      assert SolverVar(j)[|j.namespace.value|] == ':';
    }
    if k.namespace.Some? {
      assert SolverVar(k)[|k.namespace.value|] == ':';
    }
    if j.namespace.Some? && k.namespace.Some? {
      var x, y := j.namespace.value + ":", k.namespace.value + ":";
      assert SolverVar(j) == x + ":" + j.name && SolverVar(k) == y + ":" + k.name;
      LastSplitUnique(x, ":", j.name, y, k.name);
      assert j.namespace.value == x[..|x| - 1] && k.namespace.value == y[..|y| - 1];
    }
  }

  // ---- What the pass claims ------------------------------------------------------------

  /** The first declaration of a key. */
  function FirstOf(deps: seq<Dep>, key: DepKey): (r: Option<Dep>)
    ensures r.Some? ==> r.value in deps && KeyOf(r.value) == key
  {
    if deps == [] then None
    else
      var init := FirstOf(deps[..|deps| - 1], key);
      if init.Some? then init
      else if KeyOf(deps[|deps| - 1]) == key then Some(deps[|deps| - 1])
      else None
  }

  function FirstOverride(ovs: seq<Override>, name: string): (r: Option<Override>)
    ensures r.Some? ==> r.value in ovs && r.value.name == name
  {
    if ovs == [] then None
    else
      var init := FirstOverride(ovs[..|ovs| - 1], name);
      if init.Some? then init
      else if ovs[|ovs| - 1].name == name then Some(ovs[|ovs| - 1])
      else None
  }

  lemma {:induction false} FirstOfDeclared(deps: seq<Dep>, d: Dep)
    requires d in deps
    ensures FirstOf(deps, KeyOf(d)).Some?
  {
    if d in deps[..|deps| - 1] {
      FirstOfDeclared(deps[..|deps| - 1], d);
    }
  }

  lemma {:induction false} ByNameOrigin(ovs: seq<Override>, name: string)
    ensures name in ByName(ovs) <==> FirstOverride(ovs, name).Some?
    ensures name in ByName(ovs) ==> ByName(ovs)[name] in ovs && ByName(ovs)[name].name == name
    ensures UniqueNames(ovs) ==>
              forall ov :: ov in ovs && ov.name == name ==>
                name in ByName(ovs) && ByName(ovs)[name] == ov && FirstOverride(ovs, name) == Some(ov)
  {
    if ovs != [] {
      var init, last := ovs[..|ovs| - 1], ovs[|ovs| - 1];
      assert forall ov :: ov in ovs <==> ov in init || ov == last;
      ByNameOrigin(init, name);
    }
  }

  ghost predicate Declared(deps: seq<Dep>, name: string) {
    exists d :: d in deps && d.name == name
  }

  /** The origin a key is claimed for at the root, if it is: of an overridden name the bare key
      is, for the override's target; of any other the key itself, for what its first declaration
      names. (Should two overrides have one name, the last counts if the name is declared, and
      the first if it is not.) */
  ghost function RootOrigin(k: DepKey, deps: seq<Dep>, ovs: seq<Override>, env: Env): Option<SourceId> {
    if k.name in ByName(ovs) then
      if k.namespace.Some? then None
      else if Declared(deps, k.name) then Some(TargetOrigin(ByName(ovs)[k.name].target, env))
      else
        match FirstOverride(ovs, k.name)
        case None => None
        case Some(ov) => Some(TargetOrigin(ov.target, env))
    else
      match FirstOf(deps, k)
      case None => None
      case Some(d) => DeclaredOrigin(d, env)
  }

  ghost predicate Claimed(k: DepKey, deps: seq<Dep>, ovs: seq<Override>, env: Env) {
    RootOrigin(k, deps, ovs, env).Some?
  }

  /** The same, normalized. */
  ghost function Effective(k: DepKey, deps: seq<Dep>, ovs: seq<Override>, env: Env): Option<SourceId>
    requires Claimed(k, deps, ovs, env)
  {
    Normalize(RootOrigin(k, deps, ovs, env).value, env.gitUrl)
  }

  // The claim the loop over the declarations makes of a key.
  function DepClaim(deps: seq<Dep>, k: DepKey, byName: map<string, Override>, env: Env): Option<Claim> {
    match FirstOf(deps, k)
    case None => None
    case Some(d) =>
      match RawOrigin(d, byName, env)
      case None => None
      case Some(raw) =>
        match Normalize(raw, env.gitUrl)
        case None => None
        case Some(source) => Some(Claim(ClaimName(d, byName), source, true))
  }

  ghost predicate FromDeclaration(c: Claim, deps: seq<Dep>, byName: map<string, Override>, env: Env) {
    exists k :: DepClaim(deps, k, byName, env) == Some(c)
  }

  // The declarations of a pass that got through, and what it has seen and claimed.
  ghost predicate PassOver(p: Pass, deps: seq<Dep>, byName: map<string, Override>, env: Env) {
    && (forall k :: k in p.seenKeys <==> FirstOf(deps, k).Some?)
    && (forall n :: n in p.seenNames <==> Declared(deps, n))
    && (forall c :: c in p.claims <==> FromDeclaration(c, deps, byName, env))
    && (forall d :: d in deps && RawOrigin(d, byName, env).Some? ==>
          Normalize(RawOrigin(d, byName, env).value, env.gitUrl).Some?)
  }

  lemma FirstOfNext(deps: seq<Dep>, d: Dep, k: DepKey)
    ensures FirstOf(deps + [d], k) == if FirstOf(deps, k).Some? then FirstOf(deps, k)
                                      else if KeyOf(d) == k then Some(d) else None
  {
    assert (deps + [d])[..|deps|] == deps;
  }

  lemma AddDepClaims(p: Pass, deps: seq<Dep>, d: Dep, byName: map<string, Override>, env: Env)
    requires PassOver(p, deps, byName, env) && AddDep(p, d, byName, env).Ok?
    ensures forall c :: c in AddDep(p, d, byName, env).value.claims <==> FromDeclaration(c, deps + [d], byName, env)
  {
    var q := AddDep(p, d, byName, env).value;
    forall k
      ensures k != KeyOf(d) || FirstOf(deps, k).Some? ==> DepClaim(deps + [d], k, byName, env) == DepClaim(deps, k, byName, env)
    {
      FirstOfNext(deps, d, k);
    }
    FirstOfNext(deps, d, KeyOf(d));
    forall c
      ensures c in q.claims <==> FromDeclaration(c, deps + [d], byName, env)
    {
      if c in p.claims {
        var k :| DepClaim(deps, k, byName, env) == Some(c);
        assert DepClaim(deps + [d], k, byName, env) == Some(c);
      } else if c in q.claims {
        assert DepClaim(deps + [d], KeyOf(d), byName, env) == Some(c);
      }
      if k :| DepClaim(deps + [d], k, byName, env) == Some(c) {
        assert k != KeyOf(d) || FirstOf(deps, k).Some? ==> DepClaim(deps, k, byName, env) == Some(c);
      }
    }
  }

  lemma AddDepSeen(p: Pass, deps: seq<Dep>, d: Dep, byName: map<string, Override>, env: Env)
    requires PassOver(p, deps, byName, env) && AddDep(p, d, byName, env).Ok?
    ensures var q := AddDep(p, d, byName, env).value;
            && (forall k :: k in q.seenKeys <==> FirstOf(deps + [d], k).Some?)
            && (forall n :: n in q.seenNames <==> Declared(deps + [d], n))
  {
    var q := AddDep(p, d, byName, env).value;
    assert q.seenKeys == p.seenKeys + {KeyOf(d)} && q.seenNames == p.seenNames + {d.name};
    forall k
      ensures k in q.seenKeys <==> FirstOf(deps + [d], k).Some?
    {
      FirstOfNext(deps, d, k);
    }
    forall n
      ensures Declared(deps + [d], n) <==> Declared(deps, n) || n == d.name
    {
      assert forall e :: e in deps + [d] <==> e in deps || e == d;
    }
  }

  lemma AddDepPass(p: Pass, all: seq<Dep>, byName: map<string, Override>, env: Env, q: Pass)
    requires all != [] && PassOver(p, all[..|all| - 1], byName, env)
    requires AddDep(p, all[|all| - 1], byName, env) == Ok(q)
    ensures PassOver(q, all, byName, env)
  {
    var init, last := all[..|all| - 1], all[|all| - 1];
    AddDepClaims(p, init, last, byName, env);
    AddDepSeen(p, init, last, byName, env);
    assert init + [last] == all;
  }

  lemma NothingPassed(byName: map<string, Override>, env: Env)
    requires AddDeps([], byName, env).Ok?
    ensures PassOver(AddDeps([], byName, env).value, [], byName, env)
  {
    assert forall c :: !FromDeclaration(c, [], byName, env);
  }

  lemma {:induction false} DepsClaim(deps: seq<Dep>, byName: map<string, Override>, env: Env)
    requires AddDeps(deps, byName, env).Ok?
    ensures PassOver(AddDeps(deps, byName, env).value, deps, byName, env)
  {
    if deps == [] {
      NothingPassed(byName, env);
    } else {
      DepsClaim(deps[..|deps| - 1], byName, env);
      AddDepPass(AddDeps(deps[..|deps| - 1], byName, env).value, deps, byName, env, AddDeps(deps, byName, env).value);
    }
  }

  // The claim the loop over the overrides makes of a name.
  ghost predicate FromOverride(c: Claim, p: Pass, ovs: seq<Override>, env: Env) {
    && c.isRoot && c.name !in p.seenNames && FirstOverride(ovs, c.name).Some?
    && Normalize(TargetOrigin(FirstOverride(ovs, c.name).value.target, env), env.gitUrl) == Some(c.source)
  }

  lemma {:induction false} OverridesClaim(p: Pass, ovs: seq<Override>, env: Env)
    requires AddOverrides(Ok(p), ovs, env).Ok?
    ensures var q := AddOverrides(Ok(p), ovs, env).value;
            && (forall n :: n in q.seenNames <==> n in p.seenNames || FirstOverride(ovs, n).Some?)
            && (forall c :: c in q.claims <==> c in p.claims || FromOverride(c, p, ovs, env))
    ensures forall n :: n !in p.seenNames && FirstOverride(ovs, n).Some? ==>
              Normalize(TargetOrigin(FirstOverride(ovs, n).value.target, env), env.gitUrl).Some?
  {
    if ovs != [] {
      OverridesClaim(p, ovs[..|ovs| - 1], env);
    }
  }

  ghost predicate ClaimOf(c: Claim, k: DepKey, deps: seq<Dep>, ovs: seq<Override>, env: Env) {
    Claimed(k, deps, ovs, env) && c.isRoot && c.name == SolverVar(k) && Effective(k, deps, ovs, env) == Some(c.source)
  }

  // A claimed key's claim is there.
  lemma KeyIsClaimed(k: DepKey, deps: seq<Dep>, ovs: seq<Override>, env: Env) returns (c: Claim)
    requires RootClaims(deps, ovs, env).Ok? && Claimed(k, deps, ovs, env)
    ensures c in RootClaims(deps, ovs, env).value && ClaimOf(c, k, deps, ovs, env)
  {
    var byName := ByName(ovs);
    ByNameOrigin(ovs, k.name);
    DepsClaim(deps, byName, env);
    var p := AddDeps(deps, byName, env).value;
    OverridesClaim(p, ovs, env);
    if k.name !in byName || Declared(deps, k.name) {
      var d: Dep;
      if k.name in byName {
        d :| d in deps && d.name == k.name;
        FirstOfDeclared(deps, d);
        d := FirstOf(deps, KeyOf(d)).value;
      } else {
        d := FirstOf(deps, k).value;
      }
      c := Claim(ClaimName(d, byName), Normalize(RawOrigin(d, byName, env).value, env.gitUrl).value, true);
      assert DepClaim(deps, KeyOf(d), byName, env) == Some(c);
      assert FromDeclaration(c, deps, byName, env);
    } else {
      var ov := FirstOverride(ovs, k.name).value;
      c := Claim(k.name, Normalize(TargetOrigin(ov.target, env), env.gitUrl).value, true);
      assert FromOverride(c, p, ovs, env);
    }
  }

  // And every claim is that of a claimed key.
  lemma ClaimHasKey(c: Claim, deps: seq<Dep>, ovs: seq<Override>, env: Env) returns (k: DepKey)
    requires RootClaims(deps, ovs, env).Ok? && c in RootClaims(deps, ovs, env).value
    ensures ClaimOf(c, k, deps, ovs, env)
  {
    var byName := ByName(ovs);
    DepsClaim(deps, byName, env);
    var p := AddDeps(deps, byName, env).value;
    OverridesClaim(p, ovs, env);
    if c in p.claims {
      assert FromDeclaration(c, deps, byName, env);
      var j :| DepClaim(deps, j, byName, env) == Some(c);
      var d := FirstOf(deps, j).value;
      k := if d.name in byName then DepKey(d.name, None) else j;
      assert Declared(deps, d.name);
    } else {
      assert FromOverride(c, p, ovs, env);
      k := DepKey(c.name, None);
      ByNameOrigin(ovs, c.name);
    }
  }

  /** The pass hands on the claims of the claimed keys, each for its effective origin, and no
      others. */
  lemma ClaimsAreOfKeys(deps: seq<Dep>, ovs: seq<Override>, env: Env)
    requires RootClaims(deps, ovs, env).Ok?
    ensures forall c :: c in RootClaims(deps, ovs, env).value <==> exists k :: ClaimOf(c, k, deps, ovs, env)
    ensures forall k :: Claimed(k, deps, ovs, env) ==> Effective(k, deps, ovs, env).Some?
  {
    var claims := RootClaims(deps, ovs, env).value;
    forall c
      ensures c in claims <==> exists k :: ClaimOf(c, k, deps, ovs, env)
    {
      if c in claims {
        var k := ClaimHasKey(c, deps, ovs, env);
      }
      if k :| ClaimOf(c, k, deps, ovs, env) {
        var d := KeyIsClaimed(k, deps, ovs, env);
        assert c == d;
      }
    }
    forall k | Claimed(k, deps, ovs, env)
      ensures Effective(k, deps, ovs, env).Some?
    {
      var c := KeyIsClaimed(k, deps, ovs, env);
    }
  }

  // ---- When the constructor accepts them ---------------------------------------------------

  lemma {:induction false} AgreeingClaimsBind(claims: seq<Claim>)
    requires forall c :: c in claims ==> c.isRoot
    requires forall c, d :: c in claims && d in claims && KeyFor(c) == KeyFor(d) ==> c.source == d.source
    ensures BindRoots(claims).Ok?
    ensures forall k :: k in BindRoots(claims).value.bindings ==>
              exists c :: c in claims && KeyFor(c) == k && c.source == BindRoots(claims).value.bindings[k]
  {
    if claims != [] {
      var init, last := claims[..|claims| - 1], claims[|claims| - 1];
      assert forall c :: c in claims <==> c in init || c == last;
      AgreeingClaimsBind(init);
      assert BindRoot(BindRoots(init).value, last).Ok?;
      BindRootFrame(BindRoots(init).value, last);
    }
  }

  lemma {:induction false} OnlyDisagreement(claims: seq<Claim>)
    requires forall c :: c in claims ==> c.isRoot
    ensures BindRoots(claims).Err? ==> BindRoots(claims) == Err(RootsDisagree)
  {
    if claims != [] {
      OnlyDisagreement(claims[..|claims| - 1]);
    }
  }

  /** The constructor accepts root claims exactly if those for one key agree. */
  lemma RootsBindExactly(claims: seq<Claim>)
    requires forall c :: c in claims ==> c.isRoot
    ensures BindRoots(claims).Ok? <==>
            forall c, d :: c in claims && d in claims && KeyFor(c) == KeyFor(d) ==> c.source == d.source
    ensures BindRoots(claims).Err? ==> BindRoots(claims) == Err(RootsDisagree)
  {
    OnlyDisagreement(claims);
    if BindRoots(claims).Ok? {
      RootsOwnAll(claims);
    } else if forall c, d :: c in claims && d in claims && KeyFor(c) == KeyFor(d) ==> c.source == d.source {
      AgreeingClaimsBind(claims);
    }
  }

  /** Two keys the resolver cannot tell apart, for their spellings decode to one, are claimed for
      one origin, if both are claimed. */
  ghost predicate Agree(j: DepKey, k: DepKey, deps: seq<Dep>, ovs: seq<Override>, env: Env) {
    Claimed(j, deps, ovs, env) && Claimed(k, deps, ovs, env) && FromSolverVar(SolverVar(j)) == FromSolverVar(SolverVar(k))
    ==> Effective(j, deps, ovs, env) == Effective(k, deps, ovs, env)
  }

  /** The constructor's assertion on what reconciliation hands it: it fails exactly if two
      claimed keys decode alike and their effective origins differ. */
  lemma ReconciledClaimsBind(deps: seq<Dep>, ovs: seq<Override>, env: Env)
    requires RootClaims(deps, ovs, env).Ok?
    ensures var r := BindRoots(RootClaims(deps, ovs, env).value);
            && (r.Ok? <==> forall j, k :: Agree(j, k, deps, ovs, env))
            && (r.Err? ==> r == Err(RootsDisagree))
  {
    var claims := RootClaims(deps, ovs, env).value;
    ClaimsAreOfKeys(deps, ovs, env);
    RootsBindExactly(claims);
    if BindRoots(claims).Ok? {
      forall j, k
        ensures Agree(j, k, deps, ovs, env)
      {
        if Claimed(j, deps, ovs, env) && Claimed(k, deps, ovs, env) {
          var c := KeyIsClaimed(j, deps, ovs, env);
          var d := KeyIsClaimed(k, deps, ovs, env);
          assert KeyFor(c) == KeyFor(d) ==> c.source == d.source;
        }
      }
    }
    if forall j, k :: Agree(j, k, deps, ovs, env) {
      forall c, d | c in claims && d in claims && KeyFor(c) == KeyFor(d)
        ensures c.source == d.source
      {
        var j := ClaimHasKey(c, deps, ovs, env);
        var k := ClaimHasKey(d, deps, ovs, env);
        assert Agree(j, k, deps, ovs, env);
      }
    }
  }

  lemma ClaimedIsKey(k: DepKey, deps: seq<Dep>, ovs: seq<Override>, env: Env)
    requires Claimed(k, deps, ovs, env)
    ensures IsKey(k, deps, ovs)
  {
    ByNameOrigin(ovs, k.name);
  }

  /** So it holds where no two keys of the manifest are spelled alike. */
  lemma NoAliasesBind(deps: seq<Dep>, ovs: seq<Override>, env: Env)
    requires RootClaims(deps, ovs, env).Ok? && NoAliases(deps, ovs)
    ensures BindRoots(RootClaims(deps, ovs, env).value).Ok?
  {
    ReconciledClaimsBind(deps, ovs, env);
    forall j, k
      ensures Agree(j, k, deps, ovs, env)
    {
      if Claimed(j, deps, ovs, env) && Claimed(k, deps, ovs, env) {
        ClaimedIsKey(j, deps, ovs, env);
        ClaimedIsKey(k, deps, ovs, env);
        DecodeEncode(SolverVar(j));
        DecodeEncode(SolverVar(k));
      }
    }
  }

  // ---- Over the manifest's alphabet -----------------------------------------------------------

  /** The manifest parser's check on the names of declarations. It has none on those of overrides. */
  ghost predicate PlainDeclarations(deps: seq<Dep>) {
    forall d :: d in deps && !d.MemberDep? ==> ValidDepName(d.name)
  }

  // Of two claimed keys that are spelled alike and are not one, one is an override's.
  lemma SpelledAlike(j: DepKey, k: DepKey, deps: seq<Dep>, ovs: seq<Override>, env: Env)
    requires PlainDeclarations(deps) && Claimed(j, deps, ovs, env) && Claimed(k, deps, ovs, env)
    requires SolverVar(j) == SolverVar(k) && j != k
    ensures (j.name in ByName(ovs) && k.name !in ByName(ovs) && k.namespace.Some? && j == DepKey(SolverVar(k), None))
            || (k.name in ByName(ovs) && j.name !in ByName(ovs) && j.namespace.Some? && k == DepKey(SolverVar(j), None))
  {
    if j.name !in ByName(ovs) && k.name !in ByName(ovs) {
      assert ValidDepName(j.name) && ValidDepName(k.name);
      PlainNamesDiffer(j, k);
    }
  }

  /** For the manifests the parser lets through, with names of declarations in its alphabet: the
      constructor fails exactly if some override's name is the spelling of a claimed key that has
      a namespace, and its target is not that key's origin. */
  lemma ManifestBindsExactly(deps: seq<Dep>, ovs: seq<Override>, env: Env)
    requires RootClaims(deps, ovs, env).Ok? && PlainDeclarations(deps)
    ensures BindRoots(RootClaims(deps, ovs, env).value).Ok? <==>
            forall k: DepKey :: k.namespace.Some? && SolverVar(k) in ByName(ovs) ==>
              Agree(k, DepKey(SolverVar(k), None), deps, ovs, env)
  {
    ReconciledClaimsBind(deps, ovs, env);
    if forall k: DepKey :: k.namespace.Some? && SolverVar(k) in ByName(ovs) ==>
         Agree(k, DepKey(SolverVar(k), None), deps, ovs, env)
    {
      forall j, k
        ensures Agree(j, k, deps, ovs, env)
      {
        DecodeEncode(SolverVar(j));
        DecodeEncode(SolverVar(k));
        if Claimed(j, deps, ovs, env) && Claimed(k, deps, ovs, env) && SolverVar(j) == SolverVar(k) && j != k {
          SpelledAlike(j, k, deps, ovs, env);
          assert SolverVar(DepKey(SolverVar(j), None)) == SolverVar(j);
          assert Agree(j, DepKey(SolverVar(j), None), deps, ovs, env) || Agree(k, DepKey(SolverVar(k), None), deps, ovs, env);
        }
      }
    }
  }

  /** With overrides named in that alphabet as well, it never fails. */
  lemma PlainManifestBinds(deps: seq<Dep>, ovs: seq<Override>, env: Env)
    requires RootClaims(deps, ovs, env).Ok? && PlainDeclarations(deps)
    requires forall ov :: ov in ovs ==> ValidDepName(ov.name)
    ensures BindRoots(RootClaims(deps, ovs, env).value).Ok?
  {
    ManifestBindsExactly(deps, ovs, env);
    forall k: DepKey | k.namespace.Some?
      ensures SolverVar(k) !in ByName(ovs)
    {
      NotPlain(SolverVar(k), |k.namespace.value|);
      ByNameOrigin(ovs, SolverVar(k));
    }
  }

  lemma NotPlain(s: string, i: nat)
    requires i < |s| && s[i] == ':'
    ensures !ValidDepName(s)
  {
    assert s[i] in s;
  }

  // One declaration in a namespace, and one override that is named as it is spelled.
  lemma AliasClaims(x: string, ns: string, target: Target, env: Env, source: SourceId, other: SourceId)
    requires Normalize(RegistryOrigin(x, Some(ns), env), env.gitUrl) == Some(source)
    requires Normalize(TargetOrigin(target, env), env.gitUrl) == Some(other)
    ensures var n := SolverVar(DepKey(x, Some(ns)));
            RootClaims([NamedDep(x, Some(ns))], [Override(n, target)], env) ==
            Ok([Claim(n, source, true)] + [Claim(n, other, true)])
  {
    var n := SolverVar(DepKey(x, Some(ns)));
    var d, ov := NamedDep(x, Some(ns)), Override(n, target);
    var byName := ByName([ov]);
    assert |n| > |x| && [ov][..0] == [] && [d][..0] == [];
    assert ByName([]) == map[];
    assert byName == map[n := ov];
    assert RawOrigin(d, byName, env) == Some(RegistryOrigin(x, Some(ns), env));
    var p := AddDep(Pass([], {}, {}, map[]), d, byName, env);
    assert AddDeps([d], byName, env) == p;
    assert p.Ok? && p.value.claims == [Claim(n, source, true)] && p.value.seenNames == {x};
    assert AddOverrides(p, [], env) == p;
    assert AddOverrides(p, [ov], env) == AddOverride(p.value, ov, env);
  }

  lemma TwoDisagree(c: Claim, d: Claim)
    requires c.isRoot && d.isRoot && KeyFor(c) == KeyFor(d) && c.source != d.source
    ensures BindRoots([c] + [d]) == Err(RootsDisagree)
  {
    assert ([c] + [d])[..1] == [c] && [c][..0] == [];
    assert BindRoots([c]).Ok?;
  }

  /** The names of overrides do need it. Manifests like this one the parser lets through, for
      nothing looks at an override's name: a declaration in a namespace, both in the alphabet,
      and an override under its spelling, for another origin, which is outside. They are
      reconciled, and the constructor fails. */
  lemma OverrideFailsTheConstructor(x: string, ns: string, target: Target, env: Env)
    requires ValidDepName(x) && ValidDepName(ns)
    requires Normalize(RegistryOrigin(x, Some(ns), env), env.gitUrl).Some?
    requires Normalize(TargetOrigin(target, env), env.gitUrl).Some?
    requires Normalize(TargetOrigin(target, env), env.gitUrl) != Normalize(RegistryOrigin(x, Some(ns), env), env.gitUrl)
    ensures var deps, ovs := [NamedDep(x, Some(ns))], [Override(SolverVar(DepKey(x, Some(ns))), target)];
            && PlainDeclarations(deps) && UniqueNames(ovs) && !ValidDepName(ovs[0].name)
            && RootClaims(deps, ovs, env).Ok?
            && BindRoots(RootClaims(deps, ovs, env).value) == Err(RootsDisagree)
  {
    var source := Normalize(RegistryOrigin(x, Some(ns), env), env.gitUrl).value;
    var other := Normalize(TargetOrigin(target, env), env.gitUrl).value;
    var n := SolverVar(DepKey(x, Some(ns)));
    NotPlain(n, |ns|);
    AliasClaims(x, ns, target, env, source, other);
    TwoDisagree(Claim(n, source, true), Claim(n, other, true));
  }

  /** Such as an override of `n::x`, for a local path, beside a declaration of `x` in `n`. */
  lemma OneManifestFails(env: Env)
    ensures var deps, ovs := [NamedDep("x", Some("n"))], [Override(SolverVar(DepKey("x", Some("n"))), Fixed(Local("p")))];
            && SolverVar(DepKey("x", Some("n"))) == "n::x"
            && PlainDeclarations(deps) && UniqueNames(ovs) && RootClaims(deps, ovs, env).Ok?
            && BindRoots(RootClaims(deps, ovs, env).value) == Err(RootsDisagree)
  {
    SplitOnAbsent("n", '/');
    assert Normalize(Local("p"), env.gitUrl) == Some(Local("p"));
    assert Normalize(RegistryOrigin("x", Some("n"), env), env.gitUrl) == Some(RegistryOrigin("x", Some("n"), env));
    OverrideFailsTheConstructor("x", "n", Fixed(Local("p")), env);
  }

  // ---- The root's own name -----------------------------------------------------------------------

  /** A standalone root is claimed under its own name besides. The constructor then accepts the
      claims exactly if it did before and no claimed key decodes to that name, but for one claimed
      for the root itself. */
  lemma RootSelfBinds(deps: seq<Dep>, ovs: seq<Override>, env: Env, self: string)
    requires RootClaims(deps, ovs, env).Ok?
    ensures BindRoots(RootClaims(deps, ovs, env).value + [Claim(self, Member(self), true)]).Ok? <==>
            && BindRoots(RootClaims(deps, ovs, env).value).Ok?
            && forall k :: Claimed(k, deps, ovs, env) && FromSolverVar(SolverVar(k)) == FromSolverVar(self) ==>
                 Effective(k, deps, ovs, env) == Some(Member(self))
  {
    var claims, own := RootClaims(deps, ovs, env).value, Claim(self, Member(self), true);
    ClaimsAreOfKeys(deps, ovs, env);
    RootsBindExactly(claims);
    RootsBindExactly(claims + [own]);
    assert forall c :: c in claims + [own] <==> c in claims || c == own;
    if BindRoots(claims + [own]).Ok? {
      forall k | Claimed(k, deps, ovs, env) && FromSolverVar(SolverVar(k)) == FromSolverVar(self)
        ensures Effective(k, deps, ovs, env) == Some(Member(self))
      {
        var c := KeyIsClaimed(k, deps, ovs, env);
        assert KeyFor(c) == KeyFor(own);
      }
    } else if BindRoots(claims).Ok? {
      var c, d :| c in claims + [own] && d in claims + [own] && KeyFor(c) == KeyFor(d) && c.source != d.source;
      var e := if c == own then d else c;
      var k := ClaimHasKey(e, deps, ovs, env);
    }
  }

  // ---- Overrides hold ------------------------------------------------------------------

  /** Every override's bare key is bound to its target, and stays so whatever is submitted. */
  lemma OverrideStays(deps: seq<Dep>, ovs: seq<Override>, env: Env, ov: Override, later: seq<Claim>)
    requires UniqueNames(ovs) && RootClaims(deps, ovs, env).Ok?
    requires ov in ovs && Encodable(DepKey(ov.name, None))
    requires BindRoots(RootClaims(deps, ovs, env).value).Ok?
    requires Run(BindRoots(RootClaims(deps, ovs, env).value).value, later).Ok?
    ensures var t := Run(BindRoots(RootClaims(deps, ovs, env).value).value, later).value;
            && DepKey(ov.name, None) in t.bindings && DepKey(ov.name, None) in t.roots
            && Normalize(TargetOrigin(ov.target, env), env.gitUrl) == Some(t.bindings[DepKey(ov.name, None)])
  {
    var claims := RootClaims(deps, ovs, env).value;
    ByNameOrigin(ovs, ov.name);
    var c := KeyIsClaimed(DepKey(ov.name, None), deps, ovs, env);
    EncodingRoundTrip(DepKey(ov.name, None));
    RootsOwnAll(claims);
    RunKeeps(BindRoots(claims).value, later);
  }

  // ---- The variable of a requirement ----------------------------------------------------

  datatype Requirement = Requirement(name: string, namespace: Option<string>, url: Option<string>, ref: Option<string>)

  // The manifest facts a guess is made from.
  datatype Context = Context(byName: map<string, Override>, env: Env, rootSelf: Option<string>)

  function RequirementKey(r: Requirement): DepKey {
    DepKey(r.name, r.namespace)
  }

  /** The source an unbound requirement will be claimed for: the root itself, an override's
      target, its own URL, or a registry coordinate. None is SRC-ID-MALFORMED. */
  function Guess(r: Requirement, cx: Context): Option<SourceId> {
    if r.namespace.None? && r.url.None? && cx.rootSelf == Some(r.name) then
      Some(Member(r.name))
    else if r.name in cx.byName then
      Normalize(TargetOrigin(cx.byName[r.name].target, cx.env), cx.env.gitUrl)
    else if r.url.Some? then
      Normalize(Git(r.url.value, r.ref, None), cx.env.gitUrl)
    else
      Normalize(RegistryOrigin(r.name, r.namespace, cx.env), cx.env.gitUrl)
  }

  /** canonical_key_for_requirement: the binding first, the guess otherwise. */
  function VariableFor(s: State, r: Requirement, cx: Context): Option<SolverKey> {
    var key := RequirementKey(r);
    if key in s.bindings then CanonicalFor(s, key).1
    else
      match Guess(r, cx)
      case None => None
      case Some(source) => Some(SolverKey(Canonical(source), key))
  }

  /** The variable computed before the requirement's claim is submitted is the one the key has
      once the claim is in. The label agrees too, unless the key is new and its origin is
      already known under another: then the label given beforehand is the wrong one. */
  lemma VariableAgrees(s: State, r: Requirement, cx: Context, c: Claim)
    requires Interned(s) && Guess(r, cx).Some?
    requires KeyFor(c) == RequirementKey(r) && c.source == Guess(r, cx).value && Submit(s, c).1.Ok?
    ensures var before, after := VariableFor(s, r, cx), CanonicalFor(Submit(s, c).0, RequirementKey(r)).1;
            && before.Some? && after.Some? && before.value.identity == after.value.identity
            && (before == after <==> RequirementKey(r) in s.bindings || Canonical(c.source) !in s.index)
  {
    var key, t := RequirementKey(r), Submit(s, c).0;
    SubmitInterned(s, c);
    SubmitFrame(s, c);
    CanonicalForReads(t, key);
    if key in s.bindings {
      CanonicalForReads(s, key);
    } else if Canonical(c.source) in s.index {
      var k := s.index[Canonical(c.source)].display;
      assert Earliest(s.bindings, s.order, Canonical(c.source), k);
      assert k in s.bindings;
    }
  }

  /** It can be: of a git URL that is already bound under `a`, a requirement under the new name
      `b` is given its own label beforehand, and that of `a` once its claim is accepted. */
  lemma LabelsDiffer(url: string, ref: string, a: string, b: string, env: Env)
    requires Normalize(Git(url, Some(ref), None), env.gitUrl).Some?
    requires a != b && Encodable(DepKey(a, None)) && Encodable(DepKey(b, None))
    ensures var source := Normalize(Git(url, Some(ref), None), env.gitUrl).value;
            var s := BindRoots([Claim(a, source, true)]);
            var r, c := Requirement(b, None, Some(url), Some(ref)), Claim(b, source, false);
            && s.Ok? && Guess(r, Context(map[], env, None)) == Some(source)
            && Submit(s.value, c).1 == Ok(Decision(source, New))
            && VariableFor(s.value, r, Context(map[], env, None)) == Some(SolverKey(Canonical(source), DepKey(b, None)))
            && CanonicalFor(Submit(s.value, c).0, DepKey(b, None)).1 == Some(SolverKey(Canonical(source), DepKey(a, None)))
  {
    EncodingRoundTrip(DepKey(a, None));
    EncodingRoundTrip(DepKey(b, None));
    var source := Normalize(Git(url, Some(ref), None), env.gitUrl).value;
    var first := Claim(a, source, true);
    assert [first][..0] == [];
    assert BindRoots([first]) == BindRoot(Unbound, first);
  }

  /** For instance. */
  lemma LabelsDifferOnce()
    ensures exists s: State, r: Requirement, cx: Context, c: Claim ::
              && (exists claims :: BindRoots(claims) == Ok(s))
              && KeyFor(c) == RequirementKey(r) && Guess(r, cx) == Some(c.source) && Submit(s, c).1.Ok?
              && VariableFor(s, r, cx) != CanonicalFor(Submit(s, c).0, RequirementKey(r)).1
  {
    var env := Env(name => None, url => url);
    var source := Git("u", Some("r"), None);
    assert Normalize(source, env.gitUrl) == Some(source);
    BareIsEncodable("a");
    BareIsEncodable("b");
    LabelsDiffer("u", "r", "a", "b", env);
    var first, c := Claim("a", source, true), Claim("b", source, false);
    var s := BindRoots([first]).value;
    EncodingRoundTrip(DepKey("b", None));
    var r, cx := Requirement("b", None, Some("u"), Some("r")), Context(map[], env, None);
    assert BindRoots([first]) == Ok(s);
    assert KeyFor(c) == RequirementKey(r) && Guess(r, cx) == Some(c.source);
  }

  lemma BareIsEncodable(name: string)
    requires ':' !in name
    ensures Encodable(DepKey(name, None))
  {
    forall i | 0 <= i <= |name| - 2
      ensures !OccursAt(name, SEP, i)
    {
      assert name[i] in name && SEP[0] == ':';
      assert name[i..i + 2][0] == name[i];
    }
  }

  // The requirement a declaration of a name, or of a git URL, comes down to.
  function RequirementOf(d: Dep): Requirement
    requires d.NamedDep? || (d.UrlDep? && d.ref.Some?)
  {
    if d.NamedDep? then Requirement(d.name, d.qualifier, None, None) else Requirement(d.name, None, Some(d.git), d.ref)
  }

  /** The guess is what the declaration says: the origin a reconciled declaration of the same
      name, URL and ref is claimed for, override and all. The root's own name is the one exception. */
  lemma GuessIsDeclared(d: Dep, cx: Context)
    requires d.NamedDep? || (d.UrlDep? && d.ref.Some? && d.subpath.None?)
    requires !(d.NamedDep? && d.qualifier.None? && cx.rootSelf == Some(d.name))
    ensures RequirementKey(RequirementOf(d)) == KeyOf(d)
    ensures RawOrigin(d, cx.byName, cx.env).Some?
    ensures Guess(RequirementOf(d), cx) == Normalize(RawOrigin(d, cx.byName, cx.env).value, cx.env.gitUrl)
  {
  }

  /** So the variable a declared requirement is given beforehand is the one its key has once the
      claim its declaration makes is accepted. */
  lemma DeclaredVariable(s: State, d: Dep, cx: Context, c: Claim)
    requires Interned(s) && Encodable(KeyOf(d))
    requires d.NamedDep? || (d.UrlDep? && d.ref.Some? && d.subpath.None?)
    requires !(d.NamedDep? && d.qualifier.None? && cx.rootSelf == Some(d.name))
    requires c.name == SolverVar(KeyOf(d)) && RawOrigin(d, cx.byName, cx.env).Some?
    requires Normalize(RawOrigin(d, cx.byName, cx.env).value, cx.env.gitUrl) == Some(c.source)
    requires Submit(s, c).1.Ok?
    ensures var before, after := VariableFor(s, RequirementOf(d), cx), CanonicalFor(Submit(s, c).0, KeyOf(d)).1;
            before.Some? && after.Some? && before.value.identity == after.value.identity
  {
    EncodingRoundTrip(KeyOf(d));
    GuessIsDeclared(d, cx);
    VariableAgrees(s, RequirementOf(d), cx, c);
  }

  /** A bare requirement on an overridden name always gets the override target's variable. */
  lemma OverriddenVariable(deps: seq<Dep>, ovs: seq<Override>, cx: Context, ov: Override, later: seq<Claim>,
                           url: Option<string>, ref: Option<string>)
    requires UniqueNames(ovs) && RootClaims(deps, ovs, cx.env).Ok?
    requires ov in ovs && Encodable(DepKey(ov.name, None))
    requires BindRoots(RootClaims(deps, ovs, cx.env).value).Ok?
    requires Run(BindRoots(RootClaims(deps, ovs, cx.env).value).value, later).Ok?
    ensures var t := Run(BindRoots(RootClaims(deps, ovs, cx.env).value).value, later).value;
            var target := Normalize(TargetOrigin(ov.target, cx.env), cx.env.gitUrl);
            var v := VariableFor(t, Requirement(ov.name, None, url, ref), cx);
            target.Some? && v.Some? && v.value.identity == Canonical(target.value)
  {
    var s := BindRoots(RootClaims(deps, ovs, cx.env).value).value;
    OverrideStays(deps, ovs, cx.env, ov, later);
    RootsInterned(RootClaims(deps, ovs, cx.env).value);
    RunInterned(s, later);
    CanonicalForReads(Run(s, later).value, DepKey(ov.name, None));
  }

  /** What the pass hands on is normalized, so canonical strings can be trusted to tell apart. */
  lemma ReconciledWellFormed(deps: seq<Dep>, ovs: seq<Override>, env: Env)
    requires KeepsHashFree(env.gitUrl) && RootClaims(deps, ovs, env).Ok?
    ensures forall c :: c in RootClaims(deps, ovs, env).value ==> WellFormed(c.source)
  {
    DepClaimsWellFormed(deps, ByName(ovs), env);
    OverrideClaimsWellFormed(AddDeps(deps, ByName(ovs), env), ovs, env);
  }

  ghost predicate ClaimsWellFormed(p: Pass) {
    forall c :: c in p.claims ==> WellFormed(c.source)
  }

  lemma {:induction false} DepClaimsWellFormed(deps: seq<Dep>, byName: map<string, Override>, env: Env)
    requires KeepsHashFree(env.gitUrl) && AddDeps(deps, byName, env).Ok?
    ensures ClaimsWellFormed(AddDeps(deps, byName, env).value)
  {
    if deps != [] {
      var last := deps[|deps| - 1];
      DepClaimsWellFormed(deps[..|deps| - 1], byName, env);
      if RawOrigin(last, byName, env).Some? {
        NormalizedIsWellFormed(RawOrigin(last, byName, env).value, env.gitUrl);
      }
    }
  }

  lemma {:induction false} OverrideClaimsWellFormed(p: Result<Pass, ReconcileError>, ovs: seq<Override>, env: Env)
    requires KeepsHashFree(env.gitUrl) && p.Ok? && ClaimsWellFormed(p.value) && AddOverrides(p, ovs, env).Ok?
    ensures ClaimsWellFormed(AddOverrides(p, ovs, env).value)
  {
    if ovs != [] {
      var last := ovs[|ovs| - 1];
      OverrideClaimsWellFormed(p, ovs[..|ovs| - 1], env);
      NormalizedIsWellFormed(TargetOrigin(last.target, env), env.gitUrl);
    }
  }
}
