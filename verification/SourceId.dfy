// Version-independent origins, and the one-way canonical string the solver keys them by.
module SourceId {
  import opened Common

  datatype SourceId =
    | Git(url: string, ref: Option<string>, subpath: Option<string>)
    | Oci(registry: string, repository: string, digest: Option<string>, subpath: Option<string>)
    | Tarball(url: string, subpath: Option<string>)
    | Local(path: string)
    | Registry(alias: string, namespace: Option<string>, name: string)
    | Member(name: string)

  const SUBDIR := "#subdirectory="
  const REF := "#ref="
  const DIGEST := "#digest="

  function Suffix(delim: string, o: Option<string>): string {
    if o.None? then "" else delim + o.value
  }

  function Canonical(sid: SourceId): string {
    match sid
    case Git(url, ref, subpath) => "git+" + (url + Suffix(REF, ref) + Suffix(SUBDIR, subpath))
    case Tarball(url, subpath) => "tar+" + (url + Suffix(SUBDIR, subpath))
    case Oci(registry, repository, digest, subpath) =>
      "oci+" + (registry + "/" + (repository + Suffix(DIGEST, digest)) + Suffix(SUBDIR, subpath))
    case Local(path) => "file+" + path
    case Registry(alias, None, name) => "pkg+" + (alias + "/" + name)
    case Registry(alias, Some(ns), name) => "pkg+" + (alias + "/" + (ns + "/" + name))
    case Member(name) => "member+" + name
  }

  // ---- Validation: normalize_source, whose one error is SRC-ID-MALFORMED -----

  predicate UnsafeFree(s: string) {
    forall c :: c in s ==> 0x20 <= c as int && c as int !in {0x7F, 0x2028, 0x2029}
  }

  predicate ValidSubpath(o: Option<string>) {
    o.Some? ==> o.value != "" && o.value[0] != '/' && ".." !in SplitOn(o.value, '/')
  }

  predicate ValidDepName(s: string) {
    s != "" && forall c :: c in s ==> 'A' <= c <= 'Z' || 'a' <= c <= 'z' || '0' <= c <= '9' || c == '_' || c == '-'
  }

  predicate ValidNamespace(ns: string) {
    forall seg :: seg in SplitOn(ns, '/') ==> seg != "" && seg != ".." && UnsafeFree(seg)
  }

  /** The checks each kind has to pass; `gitUrl` is the URL clean-up, which only Git has. */
  predicate Accepted(raw: SourceId, gitUrl: string -> string) {
    match raw
    case Git(url, ref, subpath) =>
      && '#' !in url && UnsafeFree(gitUrl(url)) && !Contains(gitUrl(url), SUBDIR)
      && ValidSubpath(subpath)
      && (ref.Some? ==> '#' !in ref.value && UnsafeFree(ref.value))
    case Oci(registry, repository, digest, subpath) =>
      && '/' !in registry && UnsafeFree(registry) && UnsafeFree(repository)
      && !Contains(registry + "/" + repository, SUBDIR)
      && ValidSubpath(subpath)
      && (digest.Some? ==> '#' !in digest.value)
    case Tarball(url, subpath) => UnsafeFree(url) && !Contains(url, SUBDIR) && ValidSubpath(subpath)
    case Local(path) => UnsafeFree(path)
    case Registry(alias, ns, name) =>
      ValidDepName(alias) && (ns.Some? ==> ValidNamespace(ns.value)) && ValidDepName(name)
    case Member(_) => true
  }

  function Normalize(raw: SourceId, gitUrl: string -> string): Option<SourceId> {
    if !Accepted(raw, gitUrl) then None
    else if raw.Git? then Some(Git(gitUrl(raw.url), raw.ref, raw.subpath))
    else Some(raw)
  }

  /** Cleaning a URL brings no '#' into it: the part after one is dropped, not made. */
  ghost predicate KeepsHashFree(gitUrl: string -> string) {
    forall url :: '#' !in url ==> '#' !in gitUrl(url)
  }

  // ---- Injectivity -----------------------------------------------------------

  /** What is known of every normalized source, and all that injectivity needs. */
  ghost predicate WellFormed(sid: SourceId) {
    match sid
    case Git(url, ref, _) => '#' !in url && (ref.Some? ==> '#' !in ref.value)
    case Oci(registry, repository, digest, _) =>
      '/' !in registry && !Contains(registry + "/" + repository, SUBDIR) && (digest.Some? ==> '#' !in digest.value)
    case Tarball(url, _) => !Contains(url, SUBDIR)
    case Registry(alias, _, name) => '/' !in alias && '/' !in name
    case _ => true
  }

  lemma NormalizedIsWellFormed(raw: SourceId, gitUrl: string -> string)
    requires KeepsHashFree(gitUrl)
    ensures Normalize(raw, gitUrl).Some? ==> WellFormed(Normalize(raw, gitUrl).value)
  {
  }

  /** The digest pinned in the one is spelled out in the repository of the other. */
  ghost predicate Twins(pinned: SourceId, spelled: SourceId) {
    && pinned.Oci? && spelled.Oci?
    && pinned.registry == spelled.registry && pinned.subpath == spelled.subpath
    && pinned.digest.Some? && spelled.digest.None?
    && spelled.repository == pinned.repository + DIGEST + pinned.digest.value
  }

  lemma SuffixUnique(p: string, x: string, o: Option<string>, x': string, o': Option<string>)
    requires HeadOnce(p) && !Contains(x, p) && !Contains(x', p)
    requires x + Suffix(p, o) == x' + Suffix(p, o')
    ensures x == x' && o == o'
  {
    WithSuffix(p, x, o);
    WithSuffix(p, x', o');
    if o.Some? && o'.Some? {
      FirstSplitUnique(x, p, o.value, x', o'.value);
    }
  }

  lemma WithSuffix(p: string, x: string, o: Option<string>)
    ensures o.None? ==> x + Suffix(p, o) == x
    ensures o.Some? ==> x + Suffix(p, o) == x + p + o.value && Contains(x + Suffix(p, o), p)
  {
    if o.Some? {
      ContainsMiddle(x, p, o.value);
      assert x + Suffix(p, o) == x + p + o.value;
    }
  }

  lemma HeadFreeHasNone(x: string, p: string)
    requires p != "" && p[0] !in x
    ensures !Contains(x, p)
  {
    forall i | 0 <= i <= |x| - |p|
      ensures !OccursAt(x, p, i)
    {
      assert x[i..i + |p|][0] == x[i];
    }
  }

  // A delimiter can only start at its head, and none does at the head of another that goes on
  // differently.
  lemma NoneBefore(x: string, sub: string, delim: string, o: Option<string>)
    requires HeadOnce(sub) && HeadOnce(delim) && |sub| >= 2 && |delim| >= 2
    requires delim[0] == sub[0] && delim[1] != sub[1]
    requires !Contains(x, sub) && (o.Some? ==> sub[0] !in o.value)
    ensures !Contains(x + Suffix(delim, o), sub)
  {
    var s := x + Suffix(delim, o);
    forall i | 0 <= i <= |s| - |sub|
      ensures !OccursAt(s, sub, i)
    {
      if i + |sub| <= |x| {
        assert s[i..i + |sub|] == x[i..i + |sub|];
        assert !OccursAt(x, sub, i);
      } else {
        NotAcross(x, sub, delim, o.value, i);
        assert s == x + (delim + o.value);
      }
    }
  }

  lemma NotAcross(x: string, sub: string, delim: string, v: string, i: nat)
    requires HeadOnce(sub) && HeadOnce(delim) && |sub| >= 2 && |delim| >= 2
    requires delim[0] == sub[0] && delim[1] != sub[1] && sub[0] !in v
    requires |x| < i + |sub| <= |x + (delim + v)|
    ensures !OccursAt(x + (delim + v), sub, i)
  {
    var tail := delim + v;
    var s := x + tail;
    if i < |x| {
      assert s[|x|] == tail[0] == sub[0];
      assert s[i..i + |sub|][|x| - i] != sub[|x| - i];
    } else if i == |x| {
      assert s[i + 1] == tail[1] == delim[1];
      assert s[i..i + |sub|][1] != sub[1];
    } else {
      var j := i - |x|;
      assert s[i] == tail[j];
      assert tail[j] == if j < |delim| then delim[j] else v[j - |delim|];
      assert s[i..i + |sub|][0] != sub[0];
    }
  }

  lemma NoSubdirBefore(x: string, delim: string, o: Option<string>)
    requires delim == REF || delim == DIGEST
    requires !Contains(x, SUBDIR) && (o.Some? ==> '#' !in o.value)
    ensures !Contains(x + Suffix(delim, o), SUBDIR)
  {
    NoneBefore(x, SUBDIR, delim, o);
  }

  lemma GitCanonical(a: SourceId, b: SourceId)
    requires a.Git? && b.Git? && WellFormed(a) && WellFormed(b) && Canonical(a) == Canonical(b)
    ensures a == b
  {
    HeadFreeHasNone(a.url, SUBDIR);
    HeadFreeHasNone(b.url, SUBDIR);
    NoSubdirBefore(a.url, REF, a.ref);
    NoSubdirBefore(b.url, REF, b.ref);
    assert Canonical(a)[4..] == Canonical(b)[4..];
    SuffixUnique(SUBDIR, a.url + Suffix(REF, a.ref), a.subpath, b.url + Suffix(REF, b.ref), b.subpath);
    HeadFreeHasNone(a.url, REF);
    HeadFreeHasNone(b.url, REF);
    SuffixUnique(REF, a.url, a.ref, b.url, b.ref);
  }

  lemma TarballCanonical(a: SourceId, b: SourceId)
    requires a.Tarball? && b.Tarball? && WellFormed(a) && WellFormed(b) && Canonical(a) == Canonical(b)
    ensures a == b
  {
    assert Canonical(a)[4..] == Canonical(b)[4..];
    SuffixUnique(SUBDIR, a.url, a.subpath, b.url, b.subpath);
  }

  lemma OciCanonical(a: SourceId, b: SourceId)
    requires a.Oci? && b.Oci? && WellFormed(a) && WellFormed(b) && Canonical(a) == Canonical(b)
    ensures a == b || Twins(a, b) || Twins(b, a)
  {
    var x, y := a.repository + Suffix(DIGEST, a.digest), b.repository + Suffix(DIGEST, b.digest);
    NoSubdirBefore(a.registry + "/" + a.repository, DIGEST, a.digest);
    NoSubdirBefore(b.registry + "/" + b.repository, DIGEST, b.digest);
    assert a.registry + "/" + a.repository + Suffix(DIGEST, a.digest) == a.registry + "/" + x;
    assert b.registry + "/" + b.repository + Suffix(DIGEST, b.digest) == b.registry + "/" + y;
    assert Canonical(a)[4..] == Canonical(b)[4..];
    SuffixUnique(SUBDIR, a.registry + "/" + x, a.subpath, b.registry + "/" + y, b.subpath);
    HeadFreeHasNone(a.registry, "/");
    HeadFreeHasNone(b.registry, "/");
    FirstSplitUnique(a.registry, "/", x, b.registry, y);
    DigestUnique(a.repository, a.digest, b.repository, b.digest);
  }

  lemma DigestHead(d: string)
    requires d == DIGEST
    ensures HeadOnce(d) && d[0] == '#'
  {
  }

  // Of any delimiter, so that its spelling does not matter.
  lemma DelimiterUnique(d: string, x: string, o: Option<string>, x': string, o': Option<string>)
    requires HeadOnce(d)
    requires (o.Some? ==> d[0] !in o.value) && (o'.Some? ==> d[0] !in o'.value)
    requires x + Suffix(d, o) == x' + Suffix(d, o')
    ensures o.Some? && o'.None? ==> x' == x + d + o.value
    ensures o.None? && o'.Some? ==> x == x' + d + o'.value
    ensures o.Some? == o'.Some? ==> x == x' && o == o'
  {
    WithSuffix(d, x, o);
    WithSuffix(d, x', o');
    if o.Some? && o'.Some? {
      LastSplitUnique(x, d, o.value, x', o'.value);
    }
  }

  lemma DigestUnique(x: string, o: Option<string>, x': string, o': Option<string>)
    requires o.Some? ==> '#' !in o.value
    requires o'.Some? ==> '#' !in o'.value
    requires x + Suffix(DIGEST, o) == x' + Suffix(DIGEST, o')
    ensures o.Some? && o'.None? ==> x' == x + DIGEST + o.value
    ensures o.None? && o'.Some? ==> x == x' + DIGEST + o'.value
    ensures o.Some? == o'.Some? ==> x == x' && o == o'
  {
    var d := DIGEST;
    DigestHead(d);
    DelimiterUnique(d, x, o, x', o');
  }

  lemma RegistryCanonical(a: SourceId, b: SourceId)
    requires a.Registry? && b.Registry? && WellFormed(a) && WellFormed(b) && Canonical(a) == Canonical(b)
    ensures a == b
  {
    var x := if a.namespace.None? then a.name else a.namespace.value + "/" + a.name;
    var y := if b.namespace.None? then b.name else b.namespace.value + "/" + b.name;
    assert Canonical(a)[4..] == Canonical(b)[4..];
    HeadFreeHasNone(a.alias, "/");
    HeadFreeHasNone(b.alias, "/");
    if a.namespace.Some? {
      assert x[|a.namespace.value|] == '/';
    }
    if b.namespace.Some? {
      assert y[|b.namespace.value|] == '/';
    }
    FirstSplitUnique(a.alias, "/", x, b.alias, y);
    if a.namespace.Some? && b.namespace.Some? {
      LastSplitUnique(a.namespace.value, "/", a.name, b.namespace.value, b.name);
    }
  }

  /** The injectivity law, with its one exception: canonical strings agree exactly when the
      sources do, or when they are an OCI source and its twin. */
  lemma CanonicalCharacterizes(a: SourceId, b: SourceId)
    requires WellFormed(a) && WellFormed(b)
    ensures Canonical(a) == Canonical(b) <==> a == b || Twins(a, b) || Twins(b, a)
  {
    if Canonical(a) == Canonical(b) {
      KindsDiffer(a, b);
      match a
      case Git(_, _, _) => GitCanonical(a, b);
      case Tarball(_, _) => TarballCanonical(a, b);
      case Oci(_, _, _, _) => OciCanonical(a, b);
      case Registry(_, _, _) => RegistryCanonical(a, b);
      case Local(p) => LocalCanonical(a, b);
      case Member(n) => MemberCanonical(a, b);
    }
    if Twins(a, b) {
      TwinsCanonical(a, b);
    }
    if Twins(b, a) {
      TwinsCanonical(b, a);
    }
  }

  function KindLetter(sid: SourceId): char {
    match sid
    case Git(_, _, _) => 'g'
    case Tarball(_, _) => 't'
    case Oci(_, _, _, _) => 'o'
    case Registry(_, _, _) => 'p'
    case Local(_) => 'f'
    case Member(_) => 'm'
  }

  lemma CanonicalKind(a: SourceId)
    ensures Canonical(a) != "" && Canonical(a)[0] == KindLetter(a)
  {
  }

  lemma KindsDiffer(a: SourceId, b: SourceId)
    requires Canonical(a) == Canonical(b)
    ensures KindLetter(a) == KindLetter(b)
  {
    CanonicalKind(a);
    CanonicalKind(b);
  }

  lemma LocalCanonical(a: SourceId, b: SourceId)
    requires a.Local? && b.Local? && Canonical(a) == Canonical(b)
    ensures a == b
  {
    assert a.path == Canonical(a)[5..] == Canonical(b)[5..] == b.path;
  }

  lemma MemberCanonical(a: SourceId, b: SourceId)
    requires a.Member? && b.Member? && Canonical(a) == Canonical(b)
    ensures a == b
  {
    assert a.name == Canonical(a)[7..] == Canonical(b)[7..] == b.name;
  }

  lemma TwinsCanonical(a: SourceId, b: SourceId)
    requires Twins(a, b)
    ensures Canonical(a) == Canonical(b)
  {
    assert a.repository + Suffix(DIGEST, a.digest) == b.repository + Suffix(DIGEST, b.digest);
  }

  /** The law as documented holds wherever no repository carries the digest delimiter. */
  lemma CanonicalInjective(a: SourceId, b: SourceId)
    requires WellFormed(a) && WellFormed(b)
    requires a.Oci? ==> !Contains(a.repository, DIGEST)
    requires b.Oci? ==> !Contains(b.repository, DIGEST)
    ensures Canonical(a) == Canonical(b) <==> a == b
  {
    CanonicalCharacterizes(a, b);
    if Twins(a, b) {
      ContainsMiddle(a.repository, DIGEST, a.digest.value);
    }
    if Twins(b, a) {
      ContainsMiddle(b.repository, DIGEST, b.digest.value);
    }
  }

  /** Any accepted OCI source with a digest that is safe to print has an accepted twin, another
      source with its canonical string: the guard on the base looks for one delimiter of two. */
  lemma TwinIsAccepted(a: SourceId, gitUrl: string -> string)
    requires a.Oci? && a.digest.Some? && UnsafeFree(a.digest.value)
    requires Normalize(a, gitUrl) == Some(a)
    ensures var twin := Oci(a.registry, a.repository + DIGEST + a.digest.value, None, a.subpath);
            && Normalize(twin, gitUrl) == Some(twin)
            && twin != a && Canonical(twin) == Canonical(a)
  {
    var twin := Oci(a.registry, a.repository + DIGEST + a.digest.value, None, a.subpath);
    NoSubdirBefore(a.registry + "/" + a.repository, DIGEST, a.digest);
    assert twin.registry + "/" + twin.repository == a.registry + "/" + a.repository + Suffix(DIGEST, a.digest);
    TwinsCanonical(a, twin);
  }

  /** One such pair: the two are accepted, distinct, and one origin to the solver. */
  lemma TwinExample(gitUrl: string -> string)
    ensures var a := Oci("r", "x", Some("y"), None);
            var b := Oci("r", "x" + DIGEST + "y", None, None);
            && Normalize(a, gitUrl) == Some(a) && Normalize(b, gitUrl) == Some(b)
            && a != b && Canonical(a) == Canonical(b)
  {
    var a := Oci("r", "x", Some("y"), None);
    HeadFreeHasNone(a.registry + "/" + a.repository, SUBDIR);
    TwinIsAccepted(a, gitUrl);
  }
}
