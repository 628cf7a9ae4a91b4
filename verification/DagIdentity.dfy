// From a flat sequence of materialized entries to its dag-sha256 identity.
module DagIdentity {
  import opened Common
  import opened DagTree

  const SLASH: Byte := 0x2F
  const GIT_COMPONENT: Name := [0x2E, 0x67, 0x69, 0x74]
  const SCHEME := "dag-sha256:"

  datatype Entry = Entry(relpath: Bytes, mode: Byte, content: Bytes)

  // ID-NAME-TOO-LONG, and the ValueError for a mode no materializer may emit.
  datatype IdError = IdNameTooLong | BadMode

  // ---- Paths -------------------------------------------------------------

  /** relpath.split("/") */
  function Split(relpath: Bytes): (r: seq<Name>)
    ensures r != []
  {
    SplitOn(relpath, SLASH)
  }

  lemma SplitInjective(s: Bytes, t: Bytes)
    requires Split(s) == Split(t)
    ensures s == t
  {
    JoinOfSplit(s, SLASH);
    JoinOfSplit(t, SLASH);
  }

  predicate Skipped(e: Entry) {
    GIT_COMPONENT in Split(e.relpath)
  }

  function ModeOf(b: Byte): Option<BlobMode> {
    if b == 0x00 then Some(Regular)
    else if b == 0x01 then Some(Executable)
    else if b == 0x80 then Some(Symlink)
    else None
  }

  // ---- The tree an entry sequence builds -----------------------------------

  function InsertAt(t: Tree, p: Path, b: Blob): Tree
    requires p != []
    decreases p
  {
    if |p| == 1 then
      t.(blobs := t.blobs[p[0] := b])
    else
      var child := if p[0] in t.subdirs then t.subdirs[p[0]] else EmptyTree;
      t.(subdirs := t.subdirs[p[0] := InsertAt(child, p[1..], b)])
  }

  lemma {:induction false} LookupInsert(t: Tree, p: Path, b: Blob, q: Path)
    requires p != []
    ensures Lookup(InsertAt(t, p, b), q) == if q == p then Some(b) else Lookup(t, q)
    decreases p
  {
    if |q| > 0 && |p| > 1 && q[0] == p[0] {
      if |q| > 1 {
        var child := if p[0] in t.subdirs then t.subdirs[p[0]] else EmptyTree;
        LookupInsert(child, p[1..], b, q[1..]);
        assert q == p <==> q[1..] == p[1..] by {
          assert q == [q[0]] + q[1..] && p == [p[0]] + p[1..];
        }
        assert Lookup(t, q) == Lookup(child, q[1..]);
      }
    } else if |q| == 1 && |p| == 1 {
      assert q == p <==> q[0] == p[0];
    }
  }

  /** One pass of the builder's loop. */
  function AddEntry(acc: Result<Tree, IdError>, e: Entry): Result<Tree, IdError> {
    if acc.Err? || Skipped(e) then acc
    else if ModeOf(e.mode).None? then Err(BadMode)
    else if HasLongName(Split(e.relpath)) then Err(IdNameTooLong)
    else Ok(InsertAt(acc.value, Split(e.relpath), Blob(ModeOf(e.mode).value, e.content)))
  }

  function Build(es: seq<Entry>): Result<Tree, IdError> {
    if es == [] then Ok(EmptyTree)
    else AddEntry(Build(es[..|es| - 1]), es[|es| - 1])
  }

  ghost function Identity(h: HashFn, es: seq<Entry>): Result<string, IdError> {
    match Build(es)
    case Err(e) => Err(e)
    case Ok(t) =>
      match Merkle(h, t)
      case NameTooLong => Err(IdNameTooLong)
      case Hashed(d, _) => Ok(SCHEME + Hex(d))
  }

  // ---- Hexadecimal -------------------------------------------------------

  function HexDigit(n: nat): char
    requires n < 16
  {
    if n < 10 then '0' + n as char else 'a' + (n - 10) as char
  }

  function Hex(b: Bytes): string {
    if b == [] then "" else [HexDigit(b[0] / 16), HexDigit(b[0] % 16)] + Hex(b[1..])
  }

  lemma {:induction false} HexInjective(a: Bytes, b: Bytes)
    requires Hex(a) == Hex(b)
    ensures a == b
  {
    if a != [] && b != [] {
      assert Hex(a)[0] == Hex(b)[0] && Hex(a)[1] == Hex(b)[1];
      assert a[0] / 16 == b[0] / 16 && a[0] % 16 == b[0] % 16;
      assert a[0] == b[0];
      assert Hex(a[1..]) == Hex(a)[2..] == Hex(b)[2..] == Hex(b[1..]);
      HexInjective(a[1..], b[1..]);
      assert a == [a[0]] + a[1..] && b == [b[0]] + b[1..];
    }
  }

  // ---- What an entry sequence denotes --------------------------------------

  /** The file the sequence leaves at a path: the last entry for it wins, .git entries do not
      count. */
  function LastWins(es: seq<Entry>, path: Bytes): Option<Blob> {
    if es == [] then None
    else
      var e := es[|es| - 1];
      if e.relpath == path && !Skipped(e) && ModeOf(e.mode).Some? then
        Some(Blob(ModeOf(e.mode).value, e.content))
      else
        LastWins(es[..|es| - 1], path)
  }

  ghost predicate SameDenotation(es: seq<Entry>, fs: seq<Entry>) {
    forall path :: LastWins(es, path) == LastWins(fs, path)
  }

  ghost predicate ValidModes(es: seq<Entry>) {
    forall e :: e in es && !Skipped(e) ==> ModeOf(e.mode).Some?
  }

  ghost predicate ShortNames(es: seq<Entry>) {
    forall e :: e in es && !Skipped(e) ==> !HasLongName(Split(e.relpath))
  }

  lemma PrefixElements(es: seq<Entry>)
    requires es != []
    ensures forall e :: e in es <==> e in es[..|es| - 1] || e == es[|es| - 1]
  {
    assert es == es[..|es| - 1] + [es[|es| - 1]];
  }

  /** The builder fails exactly on an entry it does not skip, for its mode or a long name. */
  lemma {:induction false} BuildAccepts(es: seq<Entry>)
    ensures Build(es).Ok? <==> ValidModes(es) && ShortNames(es)
  {
    if es != [] {
      PrefixElements(es);
      BuildAccepts(es[..|es| - 1]);
    }
  }

  lemma {:induction false} BuildLookup(es: seq<Entry>, path: Bytes)
    requires Build(es).Ok?
    ensures Lookup(Build(es).value, Split(path)) == LastWins(es, path)
  {
    if es == [] {
      assert Lookup(EmptyTree, Split(path)).None?;
    } else {
      var e, init := es[|es| - 1], es[..|es| - 1];
      BuildLookup(init, path);
      if !Skipped(e) {
        LookupInsert(Build(init).value, Split(e.relpath), Blob(ModeOf(e.mode).value, e.content), Split(path));
        if Split(path) == Split(e.relpath) {
          SplitInjective(path, e.relpath);
        }
      }
    }
  }

  /** Every file of the tree was put there by some entry. */
  lemma {:induction false} BuildOrigin(es: seq<Entry>, p: Path)
    requires Build(es).Ok? && Lookup(Build(es).value, p).Some?
    ensures exists path :: Split(path) == p
    ensures !HasLongName(p)
  {
    if es != [] {
      var e, init := es[|es| - 1], es[..|es| - 1];
      if !Skipped(e) {
        LookupInsert(Build(init).value, Split(e.relpath), Blob(ModeOf(e.mode).value, e.content), p);
      }
      if Skipped(e) || p != Split(e.relpath) {
        BuildOrigin(init, p);
      }
    }
  }

  lemma BuildsAgree(es: seq<Entry>, fs: seq<Entry>)
    requires Build(es).Ok? && Build(fs).Ok?
    ensures SameDenotation(es, fs) <==> SameFiles(Build(es).value, Build(fs).value)
  {
    var t, u := Build(es).value, Build(fs).value;
    if SameFiles(t, u) {
      forall path
        ensures LastWins(es, path) == LastWins(fs, path)
      {
        BuildLookup(es, path);
        BuildLookup(fs, path);
      }
    }
    if SameDenotation(es, fs) {
      forall p
        ensures Lookup(t, p) == Lookup(u, p)
      {
        if Lookup(t, p).Some? {
          BuildOrigin(es, p);
        } else if Lookup(u, p).Some? {
          BuildOrigin(fs, p);
        }
        if path :| Split(path) == p {
          BuildLookup(es, path);
          BuildLookup(fs, path);
        }
      }
    }
  }

  // ---- The identity --------------------------------------------------------

  /** Hashing never raises what the builder let through, so acceptance is decided entry by entry. */
  lemma IdentityAccepts(h: HashFn, es: seq<Entry>)
    ensures Identity(h, es).Ok? <==> ValidModes(es) && ShortNames(es)
    ensures Build(es).Ok? ==> Merkle(h, Build(es).value).Hashed?
  {
    BuildAccepts(es);
    if Build(es).Ok? {
      MerkleStatus(h, Build(es).value);
      forall p | Lookup(Build(es).value, p).Some?
        ensures !HasLongName(p)
      {
        BuildOrigin(es, p);
      }
    }
  }

  ghost predicate EntriesCollide(h: HashFn, es: seq<Entry>, fs: seq<Entry>)
    requires Build(es).Ok? && Build(fs).Ok?
  {
    Colliding(h, Build(es).value, Build(fs).value)
  }

  /** The identity is a function of the denoted files, and it determines them: two accepted
      sequences with one identity denote the same files, or two distinct strings hashed on the
      way, one by each computation, have the same digest. */
  lemma IdentityCharacterizes(h: HashFn, es: seq<Entry>, fs: seq<Entry>)
    requires Identity(h, es).Ok? && Identity(h, fs).Ok?
    ensures SameDenotation(es, fs) ==> Identity(h, es) == Identity(h, fs)
    ensures Identity(h, es) == Identity(h, fs) ==> SameDenotation(es, fs) || EntriesCollide(h, es, fs)
  {
    var t, u := Build(es).value, Build(fs).value;
    IdentityAccepts(h, es);
    IdentityAccepts(h, fs);
    BuildsAgree(es, fs);
    if SameDenotation(es, fs) {
      MerkleOfFiles(h, t, u);
    }
    if Identity(h, es) == Identity(h, fs) {
      var d, d' := Merkle(h, t).digest, Merkle(h, u).digest;
      assert Hex(d) == Identity(h, es).value[|SCHEME|..] == Identity(h, fs).value[|SCHEME|..] == Hex(d');
      HexInjective(d, d');
      MerkleDeterminesFiles(h, t, u);
    }
  }

  /** One path, one entry (which may be listed more than once). */
  ghost predicate DistinctPaths(es: seq<Entry>) {
    forall e, f :: e in es && f in es && e.relpath == f.relpath ==> e == f
  }

  lemma {:induction false} LastWinsOf(es: seq<Entry>, path: Bytes)
    requires DistinctPaths(es) && ValidModes(es)
    ensures LastWins(es, path).Some? ==> exists e :: e in es && e.relpath == path && !Skipped(e)
    ensures forall e :: e in es && e.relpath == path && !Skipped(e) ==>
              LastWins(es, path) == Some(Blob(ModeOf(e.mode).value, e.content))
  {
    if es != [] {
      PrefixElements(es);
      LastWinsOf(es[..|es| - 1], path);
    }
  }

  /** Order and repetition do not show: with one entry to a path, the identity depends on the
      set of entries only. */
  lemma IdentityOfSet(h: HashFn, es: seq<Entry>, fs: seq<Entry>)
    requires DistinctPaths(es) && Identity(h, es).Ok?
    requires forall e :: e in es <==> e in fs
    ensures Identity(h, fs) == Identity(h, es)
  {
    IdentityAccepts(h, es);
    IdentityAccepts(h, fs);
    forall path
      ensures LastWins(es, path) == LastWins(fs, path)
    {
      LastWinsOf(es, path);
      LastWinsOf(fs, path);
    }
    IdentityCharacterizes(h, es, fs);
  }

  function WithoutGit(es: seq<Entry>): seq<Entry> {
    if es == [] then []
    else
      var e, init := es[|es| - 1], WithoutGit(es[..|es| - 1]);
      if Skipped(e) then init else init + [e]
  }

  /** An entry with a .git component at any depth changes neither the identity nor the error. */
  lemma {:induction false} GitIgnored(h: HashFn, es: seq<Entry>)
    ensures Build(WithoutGit(es)) == Build(es)
    ensures Identity(h, WithoutGit(es)) == Identity(h, es)
  {
    if es != [] {
      var e, init := es[|es| - 1], WithoutGit(es[..|es| - 1]);
      GitIgnored(h, es[..|es| - 1]);
      if !Skipped(e) {
        assert (init + [e])[..|init|] == init;
      }
    }
  }

  // ---- Directories exist for the files below them -----------------------------

  ghost predicate NoEmptySubdir(t: Tree) {
    forall n :: n in t.subdirs ==> HasFile(t.subdirs[n]) && NoEmptySubdir(t.subdirs[n])
  }

  lemma {:induction false} InsertKeepsNoEmptySubdir(t: Tree, p: Path, b: Blob)
    requires p != [] && NoEmptySubdir(t)
    ensures NoEmptySubdir(InsertAt(t, p, b)) && HasFile(InsertAt(t, p, b))
    decreases p
  {
    LookupInsert(t, p, b, p);
    if |p| > 1 {
      InsertKeepsNoEmptySubdir(if p[0] in t.subdirs then t.subdirs[p[0]] else EmptyTree, p[1..], b);
    }
  }

  /** No directory the builder makes is ever without a file, so it never omits one. */
  lemma {:induction false} BuildNoEmptySubdir(es: seq<Entry>)
    requires Build(es).Ok?
    ensures NoEmptySubdir(Build(es).value)
  {
    if es != [] {
      var e, init := es[|es| - 1], es[..|es| - 1];
      BuildNoEmptySubdir(init);
      if !Skipped(e) {
        InsertKeepsNoEmptySubdir(Build(init).value, Split(e.relpath), Blob(ModeOf(e.mode).value, e.content));
      }
    }
  }
}
