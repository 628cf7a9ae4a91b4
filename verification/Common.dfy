// Vocabulary shared by every component of the model.
module Common {

  datatype Option<+T> = None | Some(value: T)

  // What a call that may raise gives back: a value, or the error it raised.
  datatype Result<+T, +E> = Ok(value: T) | Err(error: E)

  type Byte = b: int | 0 <= b < 256
  type Bytes = seq<Byte>

  // A raw SHA-256 digest, and the hash function every digest in the model is taken with.
  // Nothing is assumed of the function but the length of what it returns: it is not
  // injective, so results that depend on it name the colliding strings.
  type Digest = d: Bytes | |d| == 32 witness seq(32, _ => 0)
  type HashFn = Bytes -> Digest

  /** Two distinct byte strings with one digest. */
  predicate Collide(h: HashFn, x: Bytes, y: Bytes) {
    x != y && h(x) == h(y)
  }

  /** The code points of a string, as Python compares strings by. */
  function CodePoints(s: string): (r: seq<int>)
    ensures |r| == |s|
    ensures forall i :: 0 <= i < |s| ==> r[i] == s[i] as int
  {
    seq(|s|, i requires 0 <= i < |s| => s[i] as int)
  }

  lemma CodePointsInjective(s: string, t: string)
    requires CodePoints(s) == CodePoints(t)
    ensures s == t
  {
    forall i | 0 <= i < |s|
      ensures s[i] == t[i]
    {
      assert CodePoints(s)[i] == CodePoints(t)[i];
    }
  }

  /** sep.join(parts) */
  function Join<T>(sep: seq<T>, parts: seq<seq<T>>): seq<T> {
    if parts == [] then []
    else if |parts| == 1 then parts[0]
    else parts[0] + sep + Join(sep, parts[1..])
  }

  /** s.split(sep), for a one-character separator. */
  function SplitOn<T(==)>(s: seq<T>, sep: T): (r: seq<seq<T>>)
    ensures r != []
  {
    if s == [] then [[]]
    else
      var rest := SplitOn(s[1..], sep);
      if s[0] == sep then [[]] + rest else [[s[0]] + rest[0]] + rest[1..]
  }

  lemma {:induction false} JoinOfSplit<T>(s: seq<T>, sep: T)
    ensures Join([sep], SplitOn(s, sep)) == s
  {
    if s != [] {
      var rest := SplitOn(s[1..], sep);
      JoinOfSplit(s[1..], sep);
      if s[0] == sep {
        assert ([[]] + rest)[1..] == rest;
      } else {
        assert SplitOn(s, sep)[1..] == rest[1..];
      }
    }
  }

  lemma {:induction false} SplitOnAbsent<T>(s: seq<T>, sep: T)
    requires sep !in s
    ensures SplitOn(s, sep) == [s]
  {
    if s != [] {
      SplitOnAbsent(s[1..], sep);
      assert [s[0]] + s[1..] == s;
    }
  }

  /** Parts free of the separator come back from their join. */
  lemma {:induction false} SplitOfJoin<T>(parts: seq<seq<T>>, sep: T)
    requires parts != [] && forall p :: p in parts ==> sep !in p
    ensures SplitOn(Join([sep], parts), sep) == parts
  {
    SplitOnAbsent(parts[0], sep);
    if |parts| > 1 {
      var rest := Join([sep], parts[1..]);
      SplitOfJoin(parts[1..], sep);
      SplitOnFirst(parts[0], sep, rest);
      assert Join([sep], parts) == parts[0] + [sep] + rest;
    }
  }

  lemma {:induction false} SplitOnFirst<T>(x: seq<T>, sep: T, y: seq<T>)
    requires sep !in x
    ensures SplitOn(x + [sep] + y, sep) == [x] + SplitOn(y, sep)
  {
    var s := x + [sep] + y;
    if x == [] {
      assert s[1..] == y;
    } else {
      assert s[1..] == x[1..] + [sep] + y;
      SplitOnFirst(x[1..], sep, y);
      assert [x[0]] + x[1..] == x;
    }
  }

  /** `pat in s`, for strings. */
  predicate Contains<T(==)>(s: seq<T>, pat: seq<T>) {
    exists i :: 0 <= i <= |s| - |pat| && OccursAt(s, pat, i)
  }

  predicate OccursAt<T(==)>(s: seq<T>, pat: seq<T>, i: int)
    requires 0 <= i <= |s| - |pat|
  {
    s[i..i + |pat|] == pat
  }

  lemma ContainsMiddle<T>(x: seq<T>, p: seq<T>, y: seq<T>)
    ensures Contains(x + p + y, p)
  {
    assert OccursAt(x + p + y, p, |x|);
  }

  /** A delimiter whose first character does not come again in it cannot overlap itself. */
  predicate HeadOnce<T(==)>(p: seq<T>) {
    p != [] && forall j :: 1 <= j < |p| ==> p[j] != p[0]
  }

  // The first occurrence of a delimiter is where the part free of it ends.
  lemma FirstSplitNotLonger<T>(x: seq<T>, p: seq<T>, y: seq<T>, x': seq<T>, y': seq<T>)
    requires HeadOnce(p) && !Contains(x', p)
    requires x + p + y == x' + p + y'
    ensures |x| >= |x'|
  {
    var s := x + p + y;
    if |x| < |x'| {
      assert s[|x'|] == p[0];
      if |x| + |p| <= |x'| {
        assert x'[|x|..|x| + |p|] == s[|x|..|x| + |p|];
        assert OccursAt(x', p, |x|);
      }
    }
  }

  lemma FirstSplitUnique<T>(x: seq<T>, p: seq<T>, y: seq<T>, x': seq<T>, y': seq<T>)
    requires HeadOnce(p) && !Contains(x, p) && !Contains(x', p)
    requires x + p + y == x' + p + y'
    ensures x == x' && y == y'
  {
    FirstSplitNotLonger(x, p, y, x', y');
    FirstSplitNotLonger(x', p, y', x, y);
    var s := x + p + y;
    assert x == s[..|x|] == x';
    assert y == s[|x| + |p|..] == y';
  }

  // No occurrence of a delimiter starts beyond the one whose tail is free of its first character.
  lemma LastSplitNotShorter<T>(x: seq<T>, p: seq<T>, y: seq<T>, x': seq<T>, y': seq<T>)
    requires HeadOnce(p) && p[0] !in y
    requires x + p + y == x' + p + y'
    ensures |x| >= |x'|
  {
    var s := x + p + y;
    forall i | |x| < i < |s|
      ensures s[i] != p[0]
    {
      assert s[i] == (p + y)[i - |x|];
    }
    assert s[|x'|] == p[0];
  }

  /** The last occurrence of a delimiter is where the tail free of its first character begins. */
  lemma LastSplitUnique<T>(x: seq<T>, p: seq<T>, y: seq<T>, x': seq<T>, y': seq<T>)
    requires HeadOnce(p) && p[0] !in y && p[0] !in y'
    requires x + p + y == x' + p + y'
    ensures x == x' && y == y'
  {
    LastSplitNotShorter(x, p, y, x', y');
    LastSplitNotShorter(x', p, y', x, y);
    var s := x + p + y;
    assert x == s[..|x|] == x';
    assert y == s[|x| + |p|..] == y';
  }

  // ---- Identity strings ----------------------------------------------------------------

  /** s.partition(":"), where there is a ':'. */
  function PartitionAtColon(s: string): Option<(string, string)> {
    if s == "" then None
    else if s[0] == ':' then Some(("", s[1..]))
    else
      match PartitionAtColon(s[1..])
      case None => None
      case Some(p) => Some(([s[0]] + p.0, p.1))
  }

  lemma {:induction false} PartitionRejoins(s: string)
    ensures match PartitionAtColon(s)
            case None => ':' !in s
            case Some(p) => p.0 + ":" + p.1 == s && ':' !in p.0
  {
    if s != "" && s[0] != ':' {
      PartitionRejoins(s[1..]);
      assert s == [s[0]] + s[1..];
    }
  }

  /** The digest half of an identity, after its first ':'. */
  function DigestOf(identity: string): Option<string> {
    match PartitionAtColon(identity)
    case None => None
    case Some(p) => Some(p.1)
  }

  predicate IsLowerHex(s: string) {
    forall c :: c in s ==> '0' <= c <= '9' || 'a' <= c <= 'f'
  }
}
