// The pre-epoch commitment: a set of identities, encoded canonically and pinned by its digest.
module EpochCommitment {
  import opened Common
  import opened Order

  datatype PreEpochIdentity = PreEpochIdentity(namespace: string, name: string, version: string, contentHash: string)

  // ---- Comparing sort keys ---------------------------------------------------------
  //
  // A comparison is negative, zero or positive. Tuples compare by their first difference.

  /** Three comparisons among three values fit one line. */
  predicate Consistent(ab: int, bc: int, ac: int) {
    && (ab <= 0 && bc <= 0 ==> ac <= 0 && (ac == 0 ==> ab == 0 && bc == 0))
    && (ab >= 0 && bc >= 0 ==> ac >= 0 && (ac == 0 ==> ab == 0 && bc == 0))
  }

  function Then(first: int, second: int): int {
    if first != 0 then first else second
  }

  function CompareStr(a: string, b: string): int {
    if a == b then 0 else if LexLess(CodePoints(a), CodePoints(b)) then -1 else 1
  }

  lemma CompareStrLaws(a: string, b: string, c: string)
    ensures CompareStr(a, b) == -CompareStr(b, a)
    ensures Consistent(CompareStr(a, b), CompareStr(b, c), CompareStr(a, c))
  {
    var x, y, z := CodePoints(a), CodePoints(b), CodePoints(c);
    StrTotal(a, b);
    StrTotal(b, c);
    StrTotal(a, c);
    if LexLess(x, y) && LexLess(y, z) {
      LexTransitive(x, y, z);
    }
    if LexLess(z, y) && LexLess(y, x) {
      LexTransitive(z, y, x);
    }
    LexIrreflexive(x);
  }

  lemma StrTotal(a: string, b: string)
    ensures a == b || (LexLess(CodePoints(a), CodePoints(b)) <==> !LexLess(CodePoints(b), CodePoints(a)))
  {
    if a != b {
      if CodePoints(a) == CodePoints(b) {
        CodePointsInjective(a, b);
      }
      LexTotal(CodePoints(a), CodePoints(b));
      if LexLess(CodePoints(a), CodePoints(b)) {
        LexAsymmetric(CodePoints(a), CodePoints(b));
      }
    }
  }

  // ---- Versions (Semantic Versioning 2.0.0, section 11) --------------------------------

  // A prerelease identifier: all digits, or not.
  datatype PreId = Num(n: nat) | Alpha(s: string)
  datatype Version = Version(major: nat, minor: nat, patch: nat, pre: seq<PreId>, build: string)

  /** Numeric identifiers by value, and below the others; those as strings. */
  function ComparePreId(a: PreId, b: PreId): int {
    match (a, b)
    case (Num(m), Num(n)) => m - n
    case (Num(_), Alpha(_)) => -1
    case (Alpha(_), Num(_)) => 1
    case (Alpha(s), Alpha(t)) => CompareStr(s, t)
  }

  function ComparePre(a: seq<PreId>, b: seq<PreId>): int {
    if a == [] && b == [] then 0
    else if a == [] then -1
    else if b == [] then 1
    else Then(ComparePreId(a[0], b[0]), ComparePre(a[1..], b[1..]))
  }

  /** A release is above its prereleases; build metadata does not count. */
  function CompareVersion(a: Version, b: Version): int {
    Then(a.major - b.major,
    Then(a.minor - b.minor,
    Then(a.patch - b.patch,
    Then((if a.pre == [] then 1 else 0) - (if b.pre == [] then 1 else 0),
         ComparePre(a.pre, b.pre)))))
  }

  lemma ComparePreIdLaws(a: PreId, b: PreId, c: PreId)
    ensures ComparePreId(a, b) == -ComparePreId(b, a)
    ensures Consistent(ComparePreId(a, b), ComparePreId(b, c), ComparePreId(a, c))
  {
    if a.Alpha? && b.Alpha? {
      CompareStrLaws(a.s, b.s, if c.Alpha? then c.s else "");
    }
  }

  lemma {:induction false} ComparePreLaws(a: seq<PreId>, b: seq<PreId>, c: seq<PreId>)
    ensures ComparePre(a, b) == -ComparePre(b, a)
    ensures Consistent(ComparePre(a, b), ComparePre(b, c), ComparePre(a, c))
    decreases |a| + |b| + |c|
  {
    if a != [] && b != [] {
      ComparePreIdLaws(a[0], b[0], if c != [] then c[0] else a[0]);
      ComparePreLaws(a[1..], b[1..], if c != [] then c[1..] else []);
    }
  }

  lemma CompareVersionLaws(a: Version, b: Version, c: Version)
    ensures CompareVersion(a, b) == -CompareVersion(b, a)
    ensures Consistent(CompareVersion(a, b), CompareVersion(b, c), CompareVersion(a, c))
  {
    ComparePreLaws(a.pre, b.pre, c.pre);
  }

  // How version strings are read; any function will do.
  type Parser = string -> Option<Version>

  /** What does not parse comes after everything that does, as strings. */
  function CompareVersionKey(parse: Parser, a: string, b: string): int {
    match (parse(a), parse(b))
    case (Some(v), Some(w)) => CompareVersion(v, w)
    case (Some(_), None) => -1
    case (None, Some(_)) => 1
    case (None, None) => CompareStr(a, b)
  }

  lemma CompareVersionKeyLaws(parse: Parser, a: string, b: string, c: string)
    ensures CompareVersionKey(parse, a, b) == -CompareVersionKey(parse, b, a)
    ensures Consistent(CompareVersionKey(parse, a, b), CompareVersionKey(parse, b, c), CompareVersionKey(parse, a, c))
  {
    CompareStrLaws(a, b, c);
    if parse(a).Some? && parse(b).Some? {
      CompareVersionLaws(parse(a).value, parse(b).value,
                         if parse(c).Some? then parse(c).value else parse(a).value);
    }
  }

  /** The sort key of an identity; the raw version string settles what precedence leaves open. */
  function CompareIdentity(parse: Parser, a: PreEpochIdentity, b: PreEpochIdentity): int {
    Then(CompareStr(a.namespace, b.namespace),
    Then(CompareStr(a.name, b.name),
    Then(CompareVersionKey(parse, a.version, b.version),
    Then(CompareStr(a.contentHash, b.contentHash),
         CompareStr(a.version, b.version)))))
  }

  /** A total order on identities: nothing but an identity itself compares equal to it. */
  lemma CompareIdentityLaws(parse: Parser, a: PreEpochIdentity, b: PreEpochIdentity, c: PreEpochIdentity)
    ensures CompareIdentity(parse, a, b) == 0 <==> a == b
    ensures CompareIdentity(parse, a, b) == -CompareIdentity(parse, b, a)
    ensures Consistent(CompareIdentity(parse, a, b), CompareIdentity(parse, b, c), CompareIdentity(parse, a, c))
  {
    CompareStrLaws(a.namespace, b.namespace, c.namespace);
    CompareStrLaws(a.name, b.name, c.name);
    CompareVersionKeyLaws(parse, a.version, b.version, c.version);
    CompareVersionKeyLaws(parse, a.version, a.version, a.version);
    CompareStrLaws(a.contentHash, b.contentHash, c.contentHash);
    CompareStrLaws(a.version, b.version, c.version);
  }

  // ---- sorted_deduped ----------------------------------------------------------------

  function Leq(parse: Parser): (PreEpochIdentity, PreEpochIdentity) -> bool {
    (a, b) => CompareIdentity(parse, a, b) <= 0
  }

  ghost function Less(parse: Parser): (PreEpochIdentity, PreEpochIdentity) -> bool {
    (a, b) => CompareIdentity(parse, a, b) < 0
  }

  /** list(dict.fromkeys(ids)): the first of each is kept. */
  function Dedup(ids: seq<PreEpochIdentity>): (r: seq<PreEpochIdentity>)
    ensures forall x :: x in r <==> x in ids
    ensures forall i, j :: 0 <= i < j < |r| ==> r[i] != r[j]
  {
    if ids == [] then []
    else
      var init, last := ids[..|ids| - 1], ids[|ids| - 1];
      assert forall x :: x in ids <==> x in init || x == last;
      if last in init then Dedup(init) else Dedup(init) + [last]
  }

  function SortedDeduped(parse: Parser, ids: seq<PreEpochIdentity>): seq<PreEpochIdentity> {
    StableSort(Leq(parse), Dedup(ids))
  }

  lemma LessIsStrict(parse: Parser)
    ensures StrictOrder(Less(parse))
  {
    forall x: PreEpochIdentity
      ensures !Less(parse)(x, x)
    {
      CompareIdentityLaws(parse, x, x, x);
    }
    forall x: PreEpochIdentity, y: PreEpochIdentity, z: PreEpochIdentity | Less(parse)(x, y) && Less(parse)(y, z)
      ensures Less(parse)(x, z)
    {
      CompareIdentityLaws(parse, x, y, z);
    }
  }

  lemma SortedDedupedIsStrict(parse: Parser, ids: seq<PreEpochIdentity>)
    ensures StrictlySorted(Less(parse), SortedDeduped(parse, ids))
    ensures forall x :: x in SortedDeduped(parse, ids) <==> x in ids
  {
    var d := Dedup(ids);
    LessIsStrict(parse);
    forall i, j | 0 <= i < j < |d|
      ensures Refines(Less(parse), Leq(parse), d[i], d[j])
    {
      CompareIdentityLaws(parse, d[i], d[j], d[i]);
    }
    StableSortStrict(Less(parse), Leq(parse), d);
    forall x
      ensures x in SortedDeduped(parse, ids) <==> x in ids
    {
      SortKeepsElements(Leq(parse), d, x);
    }
  }

  ghost predicate SameSet(a: seq<PreEpochIdentity>, b: seq<PreEpochIdentity>) {
    forall x :: x in a <==> x in b
  }

  lemma SortedDedupedOfSet(parse: Parser, a: seq<PreEpochIdentity>, b: seq<PreEpochIdentity>)
    ensures SortedDeduped(parse, a) == SortedDeduped(parse, b) <==> SameSet(a, b)
  {
    SortedDedupedIsStrict(parse, a);
    SortedDedupedIsStrict(parse, b);
    if SameSet(a, b) {
      LessIsStrict(parse);
      StrictlySortedUnique(Less(parse), SortedDeduped(parse, a), SortedDeduped(parse, b));
    }
  }

  // ---- The canonical encoding ----------------------------------------------------------

  const DOMAIN_PREFIX := "milpa-preepoch-v1:"
  const FIELD_SEP: char := '\U{1F}'
  const RECORD_SEP: char := '\U{1E}'

  function Fields(x: PreEpochIdentity): seq<string> {
    [x.namespace, x.name, x.version, x.contentHash]
  }

  function EncodeIdentity(x: PreEpochIdentity): string {
    Join([FIELD_SEP], Fields(x))
  }

  function EncodeAll(ids: seq<PreEpochIdentity>): (r: seq<string>)
    ensures |r| == |ids| && forall i :: 0 <= i < |ids| ==> r[i] == EncodeIdentity(ids[i])
  {
    seq(|ids|, i requires 0 <= i < |ids| => EncodeIdentity(ids[i]))
  }

  function CanonicalText(parse: Parser, ids: seq<PreEpochIdentity>): string {
    Join([RECORD_SEP], EncodeAll(SortedDeduped(parse, ids)))
  }

  function Preimage(parse: Parser, ids: seq<PreEpochIdentity>): string {
    DOMAIN_PREFIX + CanonicalText(parse, ids)
  }

  // sha256 of the UTF-8 bytes of a text, in hexadecimal.
  type TextHash = string -> string

  function CommitmentDigest(h: TextHash, parse: Parser, ids: seq<PreEpochIdentity>): string {
    h(Preimage(parse, ids))
  }

  /** The commitment is a function of the set: reordering and repetition do not show. */
  lemma DigestOfSet(h: TextHash, parse: Parser, a: seq<PreEpochIdentity>, b: seq<PreEpochIdentity>)
    requires SameSet(a, b)
    ensures Preimage(parse, a) == Preimage(parse, b)
    ensures CommitmentDigest(h, parse, a) == CommitmentDigest(h, parse, b)
  {
    SortedDedupedOfSet(parse, a, b);
  }

  predicate Clean(x: PreEpochIdentity) {
    forall f :: f in Fields(x) ==> FIELD_SEP !in f && RECORD_SEP !in f
  }

  lemma EncodeIdentityText(x: PreEpochIdentity)
    ensures EncodeIdentity(x) ==
            x.namespace + [FIELD_SEP] + (x.name + [FIELD_SEP] + (x.version + [FIELD_SEP] + x.contentHash))
  {
    JoinCons([FIELD_SEP], x.namespace, [x.name, x.version, x.contentHash]);
    JoinCons([FIELD_SEP], x.name, [x.version, x.contentHash]);
    JoinCons([FIELD_SEP], x.version, [x.contentHash]);
    assert Fields(x) == [x.namespace] + [x.name, x.version, x.contentHash];
    assert [x.name, x.version, x.contentHash] == [x.name] + [x.version, x.contentHash];
    assert [x.version, x.contentHash] == [x.version] + [x.contentHash];
  }

  lemma JoinCons(sep: string, x: string, rest: seq<string>)
    requires rest != []
    ensures Join(sep, [x] + rest) == x + sep + Join(sep, rest)
  {
    assert ([x] + rest)[1..] == rest;
  }

  lemma EncodeCleanInjective(x: PreEpochIdentity, y: PreEpochIdentity)
    requires forall f :: f in Fields(x) || f in Fields(y) ==> FIELD_SEP !in f
    requires EncodeIdentity(x) == EncodeIdentity(y)
    ensures x == y
  {
    SplitOfJoin(Fields(x), FIELD_SEP);
    SplitOfJoin(Fields(y), FIELD_SEP);
    assert Fields(x)[0] == Fields(y)[0] && Fields(x)[1] == Fields(y)[1]
        && Fields(x)[2] == Fields(y)[2] && Fields(x)[3] == Fields(y)[3];
  }

  lemma CleanEncoding(x: PreEpochIdentity)
    requires Clean(x)
    ensures RECORD_SEP !in EncodeIdentity(x)
  {
    EncodeIdentityText(x);
    assert x.namespace in Fields(x) && x.name in Fields(x) && x.version in Fields(x) && x.contentHash in Fields(x);
  }

  lemma EmptyText(parse: Parser, ids: seq<PreEpochIdentity>)
    ensures CanonicalText(parse, ids) == "" <==> ids == []
  {
    SortedDedupedIsStrict(parse, ids);
    var s := SortedDeduped(parse, ids);
    assert forall i :: 0 <= i < |s| ==> s[i] in ids;
    assert forall i :: 0 <= i < |ids| ==> ids[i] in s;
    if s != [] {
      EncodeIdentityText(s[0]);
    }
  }

  /** Sets whose fields are free of both separators are told apart by their preimages. */
  lemma CleanPreimageDetermines(parse: Parser, a: seq<PreEpochIdentity>, b: seq<PreEpochIdentity>)
    requires forall x :: x in a || x in b ==> Clean(x)
    requires Preimage(parse, a) == Preimage(parse, b)
    ensures SameSet(a, b)
  {
    SortedDedupedIsStrict(parse, a);
    SortedDedupedIsStrict(parse, b);
    SameTexts(parse, a, b);
    if a != [] {
      var s, t := SortedDeduped(parse, a), SortedDeduped(parse, b);
      assert a[0] in s && b[0] in t;
      CleanTextInjective(s, t);
    }
  }

  lemma CleanTextInjective(s: seq<PreEpochIdentity>, t: seq<PreEpochIdentity>)
    requires s != [] && t != [] && forall x :: x in s || x in t ==> Clean(x)
    requires Join([RECORD_SEP], EncodeAll(s)) == Join([RECORD_SEP], EncodeAll(t))
    ensures s == t
  {
    CleanParts(s);
    CleanParts(t);
    SplitOfJoin(EncodeAll(s), RECORD_SEP);
    SplitOfJoin(EncodeAll(t), RECORD_SEP);
    assert EncodeAll(s) == EncodeAll(t);
    forall i | 0 <= i < |s|
      ensures s[i] == t[i]
    {
      assert s[i] in s && t[i] in t;
      assert EncodeAll(s)[i] == EncodeAll(t)[i];
      EncodeCleanInjective(s[i], t[i]);
    }
  }

  lemma SameTexts(parse: Parser, a: seq<PreEpochIdentity>, b: seq<PreEpochIdentity>)
    requires Preimage(parse, a) == Preimage(parse, b)
    ensures CanonicalText(parse, a) == CanonicalText(parse, b)
    ensures a == [] <==> b == []
  {
    assert CanonicalText(parse, a) == Preimage(parse, a)[|DOMAIN_PREFIX|..];
    assert CanonicalText(parse, b) == Preimage(parse, b)[|DOMAIN_PREFIX|..];
    EmptyText(parse, a);
    EmptyText(parse, b);
  }

  lemma CleanParts(s: seq<PreEpochIdentity>)
    requires forall x :: x in s ==> Clean(x)
    ensures forall p :: p in EncodeAll(s) ==> RECORD_SEP !in p
  {
    forall p | p in EncodeAll(s)
      ensures RECORD_SEP !in p
    {
      var i :| 0 <= i < |s| && EncodeAll(s)[i] == p;
      assert s[i] in s;
      CleanEncoding(s[i]);
    }
  }

  // ---- Exactly when a preimage determines its set ---------------------------------------
  //
  // The encoding itself rejects no separator in a field, so against arbitrary sets it is
  // ambiguous: from two records up, everything after the first three fields can be read as a
  // fourth.

  ghost predicate Determined(parse: Parser, a: seq<PreEpochIdentity>) {
    forall b :: Preimage(parse, b) == Preimage(parse, a) ==> SameSet(a, b)
  }

  predicate FieldsFree(x: PreEpochIdentity) {
    forall f :: f in Fields(x) ==> FIELD_SEP !in f
  }

  /** At most one record, and no field separator inside its fields. */
  ghost predicate Unmistakable(a: seq<PreEpochIdentity>) {
    a == [] || (FieldsFree(a[0]) && forall x :: x in a ==> x == a[0])
  }

  function CountSep(s: string): nat {
    if s == "" then 0 else (if s[0] == FIELD_SEP then 1 else 0) + CountSep(s[1..])
  }

  lemma {:induction false} CountSepConcat(s: string, t: string)
    ensures CountSep(s + t) == CountSep(s) + CountSep(t)
  {
    if s == "" {
      assert s + t == t;
    } else {
      assert (s + t)[1..] == s[1..] + t;
      CountSepConcat(s[1..], t);
    }
  }

  lemma {:induction false} CountSepZero(s: string)
    ensures CountSep(s) == 0 <==> FIELD_SEP !in s
  {
    if s != "" {
      CountSepZero(s[1..]);
    }
  }

  lemma CountSepRecord(x: PreEpochIdentity)
    ensures CountSep(EncodeIdentity(x)) ==
            3 + CountSep(x.namespace) + CountSep(x.name) + CountSep(x.version) + CountSep(x.contentHash)
    ensures CountSep(EncodeIdentity(x)) == 3 <==> FieldsFree(x)
  {
    EncodeIdentityText(x);
    var tail := x.version + [FIELD_SEP] + x.contentHash;
    CountSepJoin(x.namespace, x.name + [FIELD_SEP] + tail);
    CountSepJoin(x.name, tail);
    CountSepJoin(x.version, x.contentHash);
    assert x.namespace + [FIELD_SEP] + (x.name + [FIELD_SEP] + tail) == EncodeIdentity(x);
    CountSepZero(x.namespace);
    CountSepZero(x.name);
    CountSepZero(x.version);
    CountSepZero(x.contentHash);
    assert x.namespace in Fields(x) && x.name in Fields(x) && x.version in Fields(x) && x.contentHash in Fields(x);
  }

  lemma CountSepJoin(s: string, t: string)
    ensures CountSep(s + [FIELD_SEP] + t) == CountSep(s) + 1 + CountSep(t)
  {
    CountSepConcat(s + [FIELD_SEP], t);
    CountSepConcat(s, [FIELD_SEP]);
    assert CountSep([FIELD_SEP]) == 1;
  }

  lemma {:induction false} CountSepText(s: seq<PreEpochIdentity>)
    ensures CountSep(Join([RECORD_SEP], EncodeAll(s))) >= 3 * |s|
  {
    if s != [] {
      CountSepRecord(s[0]);
      assert EncodeAll(s)[1..] == EncodeAll(s[1..]);
      CountSepText(s[1..]);
      if |s| > 1 {
        CountSepConcat(EncodeIdentity(s[0]) + [RECORD_SEP], Join([RECORD_SEP], EncodeAll(s[1..])));
        CountSepConcat(EncodeIdentity(s[0]), [RECORD_SEP]);
      }
    }
  }

  lemma SingletonSorted(parse: Parser, a: seq<PreEpochIdentity>, x: PreEpochIdentity)
    requires x in a && forall y :: y in a ==> y == x
    ensures SortedDeduped(parse, a) == [x]
    ensures CanonicalText(parse, a) == EncodeIdentity(x)
  {
    SortedDedupedIsStrict(parse, a);
    var s := SortedDeduped(parse, a);
    assert forall i :: 0 <= i < |s| ==> s[i] in a;
    LessIsStrict(parse);
    StrictlySortedUnique(Less(parse), s, [x]);
    assert EncodeAll(s) == [EncodeIdentity(x)];
  }

  /** The other record a separator inside a field makes room for. */
  function Shifted(x: PreEpochIdentity): PreEpochIdentity
    requires !FieldsFree(x)
  {
    if FIELD_SEP in x.namespace then
      var (p, q) := Cut(x.namespace);
      PreEpochIdentity(p, q, x.name, x.version + [FIELD_SEP] + x.contentHash)
    else if FIELD_SEP in x.name then
      var (p, q) := Cut(x.name);
      PreEpochIdentity(x.namespace, p, q, x.version + [FIELD_SEP] + x.contentHash)
    else if FIELD_SEP in x.version then
      var (p, q) := Cut(x.version);
      PreEpochIdentity(x.namespace, x.name, p, q + [FIELD_SEP] + x.contentHash)
    else
      var (p, q) := Cut(x.contentHash);
      PreEpochIdentity(x.namespace, x.name, x.version + [FIELD_SEP] + p, q)
  }

  function Cut(s: string): (r: (string, string))
    requires FIELD_SEP in s
    ensures s == r.0 + [FIELD_SEP] + r.1
  {
    if s[0] == FIELD_SEP then ("", s[1..])
    else
      var (p, q) := Cut(s[1..]);
      ([s[0]] + p, q)
  }

  // (p|q)|t is p|(q|t).
  lemma Regroup(p: string, q: string, t: string)
    ensures (p + [FIELD_SEP] + q) + [FIELD_SEP] + t == p + [FIELD_SEP] + (q + [FIELD_SEP] + t)
  {
  }

  lemma ShiftedReadsAlike(x: PreEpochIdentity)
    requires !FieldsFree(x)
    ensures Shifted(x) != x && EncodeIdentity(Shifted(x)) == EncodeIdentity(x)
  {
    EncodeIdentityText(x);
    EncodeIdentityText(Shifted(x));
    if FIELD_SEP in x.namespace {
      var (p, q) := Cut(x.namespace);
      Regroup(p, q, x.name + [FIELD_SEP] + (x.version + [FIELD_SEP] + x.contentHash));
    } else if FIELD_SEP in x.name {
      var (p, q) := Cut(x.name);
      Regroup(p, q, x.version + [FIELD_SEP] + x.contentHash);
    } else if FIELD_SEP in x.version {
      var (p, q) := Cut(x.version);
      Regroup(p, q, x.contentHash);
    } else {
      var (p, q) := Cut(x.contentHash);
      Regroup(x.version, p, q);
    }
  }

  lemma {:induction false} MergedReadsAlike(s: seq<PreEpochIdentity>)
    requires |s| > 1
    ensures var rest := Join([RECORD_SEP], EncodeAll(s[1..]));
            EncodeIdentity(s[0].(contentHash := s[0].contentHash + [RECORD_SEP] + rest)) ==
            Join([RECORD_SEP], EncodeAll(s))
  {
    var x, rest := s[0], Join([RECORD_SEP], EncodeAll(s[1..]));
    assert EncodeAll(s)[1..] == EncodeAll(s[1..]);
    EncodeIdentityText(x);
    EncodeIdentityText(x.(contentHash := x.contentHash + [RECORD_SEP] + rest));
  }

  /** A set is told from every other by its preimage exactly when it is unmistakable. */
  lemma DeterminedIff(parse: Parser, a: seq<PreEpochIdentity>)
    ensures Determined(parse, a) <==> Unmistakable(a)
  {
    if Unmistakable(a) {
      forall b | Preimage(parse, b) == Preimage(parse, a)
        ensures SameSet(a, b)
      {
        UnmistakableDetermines(parse, a, b);
      }
    } else {
      var b := Mistaken(parse, a);
    }
  }

  lemma UnmistakableDetermines(parse: Parser, a: seq<PreEpochIdentity>, b: seq<PreEpochIdentity>)
    requires Unmistakable(a) && Preimage(parse, b) == Preimage(parse, a)
    ensures SameSet(a, b)
  {
    SameTexts(parse, a, b);
    if a != [] {
      SingletonSorted(parse, a, a[0]);
      SortedDedupedIsStrict(parse, b);
      OneRecordText(a[0], SortedDeduped(parse, b));
      assert forall y :: y in b <==> y in [a[0]];
    }
  }

  lemma OneRecordText(x: PreEpochIdentity, t: seq<PreEpochIdentity>)
    requires FieldsFree(x) && Join([RECORD_SEP], EncodeAll(t)) == EncodeIdentity(x)
    ensures t == [x]
  {
    CountSepText(t);
    CountSepRecord(x);
    EncodeIdentityText(x);
    assert |t| == 1;
    assert EncodeAll(t) == [EncodeIdentity(t[0])];
    CountSepRecord(t[0]);
    EncodeCleanInjective(x, t[0]);
  }

  // Another set with the preimage of `a`.
  lemma Mistaken(parse: Parser, a: seq<PreEpochIdentity>) returns (b: seq<PreEpochIdentity>)
    requires !Unmistakable(a)
    ensures Preimage(parse, b) == Preimage(parse, a) && !SameSet(a, b)
  {
    var s := SortedDeduped(parse, a);
    SortedDedupedIsStrict(parse, a);
    var y, x;
    if |s| == 1 {
      x := OnlyElement(a, s);
      y := Shifted(x);
      ShiftedReadsAlike(x);
      assert EncodeAll(s) == [EncodeIdentity(x)];
    } else {
      assert a[0] in s;
      y := Merged(s);
      x := OneOfTwo(parse, s, y);
    }
    b := SetOfOne(parse, y);
    assert x in a && x !in b;
  }

  lemma SetOfOne(parse: Parser, y: PreEpochIdentity) returns (b: seq<PreEpochIdentity>)
    ensures CanonicalText(parse, b) == EncodeIdentity(y) && forall x :: x in b <==> x == y
  {
    b := [y];
    assert y in b;
    SingletonSorted(parse, b, y);
  }

  // A set of one element that can be mistaken has a field separator in it.
  lemma OnlyElement(a: seq<PreEpochIdentity>, s: seq<PreEpochIdentity>) returns (x: PreEpochIdentity)
    requires !Unmistakable(a) && |s| == 1 && forall x :: x in s <==> x in a
    ensures s == [x] && x in a && !FieldsFree(x)
  {
    x := s[0];
    assert a[0] in a;
    assert forall y :: y in s ==> y == x;
  }

  // Two records or more, read as one.
  lemma Merged(s: seq<PreEpochIdentity>) returns (y: PreEpochIdentity)
    requires |s| > 1
    ensures EncodeIdentity(y) == Join([RECORD_SEP], EncodeAll(s))
  {
    MergedReadsAlike(s);
    y := s[0].(contentHash := s[0].contentHash + [RECORD_SEP] + Join([RECORD_SEP], EncodeAll(s[1..])));
  }

  lemma OneOfTwo(parse: Parser, s: seq<PreEpochIdentity>, y: PreEpochIdentity) returns (x: PreEpochIdentity)
    requires StrictlySorted(Less(parse), s) && |s| > 1
    ensures x in s && x != y
  {
    CompareIdentityLaws(parse, s[0], s[1], s[0]);
    assert Less(parse)(s[0], s[1]);
    x := if s[0] != y then s[0] else s[1];
  }

  // ---- Arming ------------------------------------------------------------------------

  datatype Status =
    | Unarmed
    | Armed(identities: set<PreEpochIdentity>, integratedTime: int)
    | ArmingInvalid(reason: Reason)

  // Why a commitment is not armed; the verifier has reasons of its own.
  datatype Reason = MalformedPointer | Unfetchable | MalformedSidecar | WrongDigest | Untrusted(why: string) | MalformedBundle

  // What the phase is given besides the pointer: how to read a sidecar, the bundle verifier
  // (None when it trusts, else its reason), and the time a bundle was logged at.
  datatype Phase = Phase(
    hash: TextHash,
    versions: Parser,
    parse: Bytes -> Option<(seq<PreEpochIdentity>, Bytes)>,
    verify: (string, Bytes) -> Option<string>,
    integratedTime: Bytes -> Option<int>)

  /** ^[0-9a-f]{64}$, whose end also matches before a final newline. */
  predicate PointerForm(s: string) {
    (|s| == 64 && IsLowerHex(s)) || (|s| == 65 && s[64] == '\n' && IsLowerHex(s[..64]))
  }

  /** A set the pointer commits to, under a bundle the verifier trusts for exactly its preimage. */
  ghost predicate Committed(ph: Phase, pointer: string, identities: set<PreEpochIdentity>) {
    exists ids: seq<PreEpochIdentity>, bundle ::
      && CommitmentDigest(ph.hash, ph.versions, ids) == pointer
      && ph.verify(Preimage(ph.versions, ids), bundle).None?
      && (forall x :: x in identities <==> x in ids)
  }

  /** The steps on a fetched and parsed sidecar: its digest, its bundle, the time that was logged. */
  function Judge(ph: Phase, pointer: string, ids: seq<PreEpochIdentity>, bundle: Bytes): (r: Status)
    ensures !r.Unarmed? && (r.Armed? ==> Committed(ph, pointer, r.identities))
  {
    if CommitmentDigest(ph.hash, ph.versions, ids) != pointer then ArmingInvalid(WrongDigest)
    else
      match ph.verify(Preimage(ph.versions, ids), bundle)
      case Some(why) => ArmingInvalid(Untrusted(why))
      case None =>
        match ph.integratedTime(bundle)
        case None => ArmingInvalid(MalformedBundle)
        case Some(t) => CommittedBy(ph, pointer, ids, bundle); Armed((set x | x in ids), t)
  }

  lemma CommittedBy(ph: Phase, pointer: string, ids: seq<PreEpochIdentity>, bundle: Bytes)
    requires CommitmentDigest(ph.hash, ph.versions, ids) == pointer && ph.verify(Preimage(ph.versions, ids), bundle).None?
    ensures Committed(ph, pointer, set x | x in ids)
  {
    var all := set x | x in ids;
    assert forall x :: x in all <==> x in ids;
  }

  function Evaluate(ph: Phase, pointer: Option<string>, sidecar: Option<Bytes>): (r: Status)
    ensures r.Unarmed? <==> pointer.None?
    ensures r.Armed? ==> Committed(ph, pointer.value, r.identities)
    ensures pointer.Some? && sidecar.None? ==> r.ArmingInvalid?
  {
    if pointer.None? then Unarmed
    else if !PointerForm(pointer.value) then ArmingInvalid(MalformedPointer)
    else if sidecar.None? then ArmingInvalid(Unfetchable)
    else
      match ph.parse(sidecar.value)
      case None => ArmingInvalid(MalformedSidecar)
      case Some((ids, bundle)) => Judge(ph, pointer.value, ids, bundle)
  }

  /** The elements of the set, in some order and any number of times. */
  ghost predicate Lists(ids: seq<PreEpochIdentity>, s: set<PreEpochIdentity>) {
    forall x :: x in s <==> x in ids
  }

  /** The preimages of the two sets are two texts, and both have the digest. */
  ghost predicate PreimagesCollide(h: TextHash, parse: Parser, s: set<PreEpochIdentity>, t: set<PreEpochIdentity>, digest: string) {
    exists a, b :: Lists(a, s) && Lists(b, t) && ListsCollide(h, parse, a, b, digest)
  }

  predicate ListsCollide(h: TextHash, parse: Parser, a: seq<PreEpochIdentity>, b: seq<PreEpochIdentity>, digest: string) {
    Preimage(parse, a) != Preimage(parse, b) && h(Preimage(parse, a)) == digest == h(Preimage(parse, b))
  }

  lemma SameDigest(h: TextHash, parse: Parser, a: seq<PreEpochIdentity>, b: seq<PreEpochIdentity>)
    requires CommitmentDigest(h, parse, a) == CommitmentDigest(h, parse, b)
    requires forall x :: x in a || x in b ==> Clean(x)
    ensures SameSet(a, b) || ListsCollide(h, parse, a, b, CommitmentDigest(h, parse, a))
  {
    if Preimage(parse, a) == Preimage(parse, b) {
      CleanPreimageDetermines(parse, a, b);
    }
  }

  lemma CommittedAs(ph: Phase, pointer: string, s: set<PreEpochIdentity>) returns (ids: seq<PreEpochIdentity>)
    requires Committed(ph, pointer, s)
    ensures CommitmentDigest(ph.hash, ph.versions, ids) == pointer && Lists(ids, s)
  {
    var list, bundle :| CommitmentDigest(ph.hash, ph.versions, list) == pointer
                        && ph.verify(Preimage(ph.versions, list), bundle).None?
                        && (forall x :: x in s <==> x in list);
    ids := list;
  }

  /** A pointer commits to one clean set: two that it commits to are equal, or their own preimages
      are two texts with the pointer for a digest. */
  lemma PointerPinsTheSet(ph: Phase, pointer: string, s: set<PreEpochIdentity>, t: set<PreEpochIdentity>)
    requires Committed(ph, pointer, s) && Committed(ph, pointer, t)
    requires forall x :: x in s || x in t ==> Clean(x)
    ensures s == t || PreimagesCollide(ph.hash, ph.versions, s, t, pointer)
  {
    var a := CommittedAs(ph, pointer, s);
    var b := CommittedAs(ph, pointer, t);
    SameDigest(ph.hash, ph.versions, a, b);
  }
}
