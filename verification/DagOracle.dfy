// The conformance oracle: a second computation of the same identity, written apart from the
// builder. It checks names only when it encodes an entry, and finds out whether a node is empty
// by a recursion of its own. Both computations are proved equal to DagIdentity.Identity.
module DagOracle {
  import opened Common
  import opened Order
  import opened DagTree
  import opened DagIdentity
  import opened DagBuilder

  // ---- Nodes that mirror a tree ------------------------------------------------

  predicate HasDir(t: Tree, d: Path)
    decreases d
  {
    d == [] || (d[0] in t.subdirs && HasDir(t.subdirs[d[0]], d[1..]))
  }

  /** The nodes at and below `p` are the directories of `t`, no more and no fewer. */
  ghost predicate Mirrors(at: Directories, p: Path, t: Tree)
    reads at.Values
  {
    Denotes(at, p, t) && forall d :: p + d in at <==> HasDir(t, d)
  }

  lemma MirrorsNode(root: Node, at: Directories, p: Path, t: Tree)
    requires IsTree(root, at) && Mirrors(at, p, t)
    ensures p in at && at[p].blobs == t.blobs && at[p].subdirs.Keys == t.subdirs.Keys
  {
    assert p + [] == p && HasDir(t, []);
    DenotesBlobs(at, p, t);
    forall n
      ensures n in at[p].subdirs <==> n in t.subdirs
    {
      assert ChildLinked(at, p, n);
      assert p + [n] in at <==> HasDir(t, [n]);
      assert HasDir(t, [n]) <==> n in t.subdirs;
    }
  }

  lemma MirrorsBelow(root: Node, at: Directories, p: Path, t: Tree, n: Name)
    requires IsTree(root, at) && Mirrors(at, p, t) && n in t.subdirs
    ensures Mirrors(at, p + [n], t.subdirs[n])
    ensures p in at && n in at[p].subdirs && p + [n] in at && at[p].subdirs[n] == at[p + [n]]
  {
    MirrorsNode(root, at, p, t);
    DenotesBelow(at, p, t, n);
    assert ChildLinked(at, p, n);
    forall d
      ensures p + [n] + d in at <==> HasDir(t.subdirs[n], d)
    {
      assert p + [n] + d == p + ([n] + d);
      assert ([n] + d)[1..] == d;
    }
  }

  // ---- Hashing -------------------------------------------------------------------

  method HTree(h: HashFn, node: Node, ghost root: Node, ghost at: Directories, ghost p: Path, ghost t: Tree)
    returns (r: Option<Digest>)
    requires IsTree(root, at) && Mirrors(at, p, t) && p in at && at[p] == node
    ensures r == (if Merkle(h, t).Hashed? then Some(Merkle(h, t).digest) else None)
    decreases t, 1
  {
    MirrorsNode(root, at, p, t);
    var entries: seq<Item> := [];
    var files := node.blobs.Keys;
    while files != {}
      invariant files <= node.blobs.Keys
      invariant forall it :: it in entries <==>
                  it.name in t.blobs && it.name !in files && it == BlobItem(h, it.name, t.blobs[it.name])
      invariant FilesFirst(entries)
    {
      var leaf :| leaf in files;
      entries := entries + [BlobItem(h, leaf, node.blobs[leaf])];
      files := files - {leaf};
    }
    var gathered := Subtrees(h, node, entries, root, at, p, t);
    if gathered.None? {
      return None;
    }
    GatheredAll(h, t, entries, gathered.value);
    entries := gathered.value;
    var sorted := StableSort(NameLeq, entries);
    assert forall it :: it in sorted <==> it in entries by {
      forall it
        ensures it in sorted <==> it in entries
      {
        SortKeepsElements(NameLeq, entries, it);
      }
    }
    var encoded := Encode(sorted);
    if encoded.None? {
      return None;
    }
    SortIsCanonical(entries, Items(h, t));
    r := Some(h(encoded.value));
  }

  // The loop over node["subdirs"]; None if hashing one of them raises.
  method Subtrees(h: HashFn, node: Node, blobs: seq<Item>, ghost root: Node, ghost at: Directories,
                  ghost p: Path, ghost t: Tree)
    returns (r: Option<seq<Item>>)
    requires IsTree(root, at) && Mirrors(at, p, t) && p in at && at[p] == node
    requires Gathered(h, t, blobs, {}, blobs)
    requires forall it :: it in blobs ==> it.kind.BlobKind?
    ensures r.None? ==> exists n :: n in t.subdirs && Merkle(h, t.subdirs[n]).NameTooLong?
    ensures r.Some? ==> Gathered(h, t, blobs, t.subdirs.Keys, r.value)
    decreases t, 0
  {
    MirrorsNode(root, at, p, t);
    var entries := blobs;
    var subdirs := node.subdirs.Keys;
    assert t.subdirs.Keys - subdirs == {};
    while subdirs != {}
      invariant subdirs <= t.subdirs.Keys
      invariant Gathered(h, t, blobs, t.subdirs.Keys - subdirs, entries)
    {
      var leaf :| leaf in subdirs;
      MirrorsBelow(root, at, p, t, leaf);
      var sub := HTreeWithEmptiness(h, node.subdirs[leaf], root, at, p + [leaf], t.subdirs[leaf]);
      if sub.NameTooLong? {
        return None;
      }
      assert t.subdirs.Keys - (subdirs - {leaf}) == (t.subdirs.Keys - subdirs) + {leaf};
      GatherOne(h, t, blobs, t.subdirs.Keys - subdirs, entries, leaf);
      if !sub.empty {
        entries := entries + [Item(leaf, TreeKind, sub.digest)];
      }
      subdirs := subdirs - {leaf};
    }
    assert t.subdirs.Keys - subdirs == t.subdirs.Keys;
    r := Some(entries);
  }

  lemma EncodeNext(entries: seq<Item>, i: nat, blob: Bytes)
    requires i < |entries|
    ensures (blob + EncodeItem(entries[i])) + EncodeItems(entries[i + 1..]) == blob + EncodeItems(entries[i..])
  {
    assert entries[i..][1..] == entries[i + 1..];
  }

  // The generator inside b"".join: one _encode_entry after another, each checking its name.
  method Encode(entries: seq<Item>) returns (r: Option<Bytes>)
    ensures r.None? <==> exists it :: it in entries && |it.name| > NAME_BYTE_CEILING
    ensures r.Some? ==> r.value == EncodeItems(entries)
  {
    var blob: Bytes := [];
    var i := 0;
    while i < |entries|
      invariant 0 <= i <= |entries|
      invariant forall j :: 0 <= j < i ==> |entries[j].name| <= NAME_BYTE_CEILING
      invariant blob + EncodeItems(entries[i..]) == EncodeItems(entries)
    {
      if |entries[i].name| > NAME_BYTE_CEILING {
        return None;
      }
      EncodeNext(entries, i, blob);
      blob := blob + EncodeItem(entries[i]);
      i := i + 1;
    }
    r := Some(blob);
  }

  method HTreeWithEmptiness(h: HashFn, node: Node, ghost root: Node, ghost at: Directories, ghost p: Path, ghost t: Tree)
    returns (r: Hashed)
    requires IsTree(root, at) && Mirrors(at, p, t) && p in at && at[p] == node
    ensures r == Merkle(h, t)
    decreases t, 2
  {
    MirrorsNode(root, at, p, t);
    var hasEntry := node.blobs.Keys != {};
    if !hasEntry {
      var subdirs := node.subdirs.Keys;
      while subdirs != {}
        invariant subdirs <= t.subdirs.Keys
        invariant forall n :: n in t.subdirs && n !in subdirs ==> !Live(h, t, n)
        invariant !hasEntry
      {
        var leaf :| leaf in subdirs;
        MirrorsBelow(root, at, p, t, leaf);
        var sub := HTreeWithEmptiness(h, node.subdirs[leaf], root, at, p + [leaf], t.subdirs[leaf]);
        if sub.NameTooLong? {
          assert BadChild(leaf, Merkle(h, t.subdirs[leaf]));
          return NameTooLong;
        }
        if !sub.empty {
          TreeItemIn(h, t, leaf);
          hasEntry := true;
          break;
        }
        subdirs := subdirs - {leaf};
      }
    } else {
      var n :| n in node.blobs.Keys;
      BlobItemIn(h, t, n);
    }
    assert hasEntry <==> Items(h, t) != {} by {
      if it :| it in Items(h, t) {
        ItemOrigin(h, t, it);
      }
    }
    var digest := HTree(h, node, root, at, p, t);
    if digest.None? {
      return NameTooLong;
    }
    r := Hashed(digest.value, !hasEntry);
  }

  ghost predicate Gathered(h: HashFn, node: Tree, files: seq<Item>, done: set<Name>, entries: seq<Item>) {
    && (forall it :: it in entries <==> it in files || (it.name in done && IsTreeItem(h, node, it)))
    && (forall n :: n in done && n in node.subdirs ==> Merkle(h, node.subdirs[n]).Hashed?)
    && FilesFirst(entries)
  }

  ghost predicate IsTreeItem(h: HashFn, node: Tree, it: Item) {
    it.kind.TreeKind? && Live(h, node, it.name) && it.digest == Merkle(h, node.subdirs[it.name]).digest
  }

  lemma GatherOne(h: HashFn, node: Tree, files: seq<Item>, done: set<Name>, entries: seq<Item>, n: Name)
    requires Gathered(h, node, files, done, entries)
    requires forall it :: it in files ==> it.kind.BlobKind?
    requires n in node.subdirs && n !in done && Merkle(h, node.subdirs[n]).Hashed?
    ensures Merkle(h, node.subdirs[n]).empty ==> Gathered(h, node, files, done + {n}, entries)
    ensures !Merkle(h, node.subdirs[n]).empty ==>
              Gathered(h, node, files, done + {n}, entries + [Item(n, TreeKind, Merkle(h, node.subdirs[n]).digest)])
  {
  }

  lemma GatheredAll(h: HashFn, node: Tree, files: seq<Item>, entries: seq<Item>)
    requires forall it :: it in files <==> it.name in node.blobs && it == BlobItem(h, it.name, node.blobs[it.name])
    requires Gathered(h, node, files, node.subdirs.Keys, entries)
    ensures forall it :: it in entries <==> it in Items(h, node)
    ensures Merkle(h, node).NameTooLong? <==> exists it :: it in entries && |it.name| > NAME_BYTE_CEILING
  {
    forall it
      ensures it in entries <==> it in Items(h, node)
    {
      if it in entries {
        if it.kind.BlobKind? {
          BlobItemIn(h, node, it.name);
        } else {
          TreeItemIn(h, node, it.name);
        }
      }
      if it in Items(h, node) {
        ItemOrigin(h, node, it);
      }
    }
    LongItems(h, node, entries);
  }

  lemma LongItems(h: HashFn, node: Tree, entries: seq<Item>)
    requires forall it :: it in entries <==> it in Items(h, node)
    requires forall n :: n in node.subdirs ==> Merkle(h, node.subdirs[n]).Hashed?
    ensures Merkle(h, node).NameTooLong? <==> exists it :: it in entries && |it.name| > NAME_BYTE_CEILING
  {
    if it :| it in entries && |it.name| > NAME_BYTE_CEILING {
      ItemOrigin(h, node, it);
      if it.kind.TreeKind? {
        assert BadChild(it.name, Merkle(h, node.subdirs[it.name]));
      }
    }
    if n :| n in node.blobs && |n| > NAME_BYTE_CEILING {
      BlobItemIn(h, node, n);
    }
    if n :| n in node.subdirs && BadChild(n, Merkle(h, node.subdirs[n])) {
      TreeItemIn(h, node, n);
    }
  }

  // ---- Insertion ---------------------------------------------------------------

  lemma {:induction false} HasDirInsert(t: Tree, p: Path, b: Blob, d: Path)
    requires p != []
    ensures HasDir(InsertAt(t, p, b), d) <==> HasDir(t, d) || d <= p[..|p| - 1]
    decreases p
  {
    if d != [] && |p| > 1 && d[0] == p[0] {
      var child := if p[0] in t.subdirs then t.subdirs[p[0]] else EmptyTree;
      HasDirInsert(child, p[1..], b, d[1..]);
      assert d <= p[..|p| - 1] <==> d[1..] <= p[1..][..|p| - 2] by {
        assert p[1..][..|p| - 2] == p[..|p| - 1][1..];
        assert d == [d[0]] + d[1..] && p[..|p| - 1] == [p[0]] + p[..|p| - 1][1..];
      }
      assert HasDir(EmptyTree, d[1..]) <==> d[1..] == [];
    }
  }

  ghost predicate Reaches(at: Directories, at': Directories, parts: Path, i: nat)
    requires i <= |parts|
  {
    forall d :: d in at' <==> d in at || d <= parts[..i]
  }

  lemma ReachesNext(root: Node, at: Directories, at': Directories, parts: Path, i: nat, more: Directories)
    requires i < |parts| && Reaches(at, at', parts, i)
    requires more.Keys == at'.Keys + {parts[..i + 1]}
    ensures Reaches(at, more, parts, i + 1)
  {
    forall d
      ensures d in more <==> d in at || d <= parts[..i + 1]
    {
      assert d in more <==> d in at' || d == parts[..i + 1];
      assert parts[..i + 1][..i] == parts[..i];
    }
  }

  /** _insert, which checks no name. */
  method InsertUnchecked(root: Node, parts: Path, blob: Blob, ghost at: Directories)
    returns (ghost at': Directories)
    requires parts != [] && IsTree(root, at)
    modifies at.Values
    ensures IsTree(root, at') && fresh(at'.Values - at.Values)
    ensures forall d, leaf ::
              FileAt(at', d, leaf) == if d + [leaf] == parts then Some(blob) else old(FileAt(at, d, leaf))
    ensures forall d :: d in at' <==> d in at || d <= parts[..|parts| - 1]
  {
    at' := at;
    var node := root;
    var i := 0;
    while i < |parts| - 1
      invariant 0 <= i <= |parts| - 1
      invariant IsTree(root, at') && Reaches(at, at', parts, i)
      invariant forall p :: p in at ==> at'[p] == at[p]
      invariant forall p :: p in at' && p !in at ==> fresh(at'[p])
      invariant parts[..i] in at' && at'[parts[..i]] == node
      invariant forall d, leaf :: FileAt(at', d, leaf) == old(FileAt(at, d, leaf))
    {
      var component := parts[i];
      ghost var before := at';
      assert parts[..i + 1] == parts[..i] + [component];
      node, at' := SetDefault(root, node, component, at', parts[..i]);
      ReachesNext(root, at, before, parts, i, at');
      i := i + 1;
    }
    assert parts == parts[..i] + [parts[i]];
    SetBlob(root, node, parts[i], blob, at', parts[..i]);
  }

  method InsertMirrored(root: Node, parts: Path, blob: Blob, ghost at: Directories, ghost t: Tree)
    returns (ghost at': Directories)
    requires parts != [] && IsTree(root, at) && Mirrors(at, [], t)
    modifies at.Values
    ensures IsTree(root, at') && fresh(at'.Values - at.Values)
    ensures Mirrors(at', [], InsertAt(t, parts, blob))
  {
    at' := InsertUnchecked(root, parts, blob, at);
    forall d, leaf
      ensures FileAt(at', [] + d, leaf) == Lookup(InsertAt(t, parts, blob), d + [leaf])
    {
      assert [] + d == d;
      assert old(FileAt(at, [] + d, leaf)) == Lookup(t, d + [leaf]);
      LookupInsert(t, parts, blob, d + [leaf]);
    }
    forall d: Path
      ensures [] + d in at' <==> HasDir(InsertAt(t, parts, blob), d)
    {
      assert [] + d == d;
      assert [] + d in at <==> HasDir(t, d);
      HasDirInsert(t, parts, blob, d);
    }
  }

  // ---- The whole computation -------------------------------------------------

  /** The tree holds what the entries denote, and nothing else. */
  ghost predicate Holds(t: Tree, es: seq<Entry>) {
    && (forall path :: Lookup(t, Split(path)) == LastWins(es, path))
    && (forall p :: Lookup(t, p).Some? ==> exists path :: Split(path) == p)
  }

  lemma HoldsStep(t: Tree, es: seq<Entry>, e: Entry)
    requires Holds(t, es) && (Skipped(e) || ModeOf(e.mode).Some?)
    ensures Skipped(e) ==> Holds(t, es + [e])
    ensures !Skipped(e) ==>
              Holds(InsertAt(t, Split(e.relpath), Blob(ModeOf(e.mode).value, e.content)), es + [e])
  {
    assert (es + [e])[..|es|] == es;
    if !Skipped(e) {
      var b := Blob(ModeOf(e.mode).value, e.content);
      var u := InsertAt(t, Split(e.relpath), b);
      forall path
        ensures Lookup(u, Split(path)) == LastWins(es + [e], path)
      {
        LookupInsert(t, Split(e.relpath), b, Split(path));
        if Split(path) == Split(e.relpath) {
          SplitInjective(path, e.relpath);
        }
      }
      forall p | Lookup(u, p).Some?
        ensures exists path :: Split(path) == p
      {
        LookupInsert(t, Split(e.relpath), b, p);
      }
    }
  }

  lemma {:induction false} LongNameShows(es: seq<Entry>, e: Entry)
    requires ValidModes(es) && e in es && !Skipped(e)
    ensures LastWins(es, e.relpath).Some?
  {
    PrefixElements(es);
    if !(es[|es| - 1].relpath == e.relpath) {
      LongNameShows(es[..|es| - 1], e);
    }
  }

  lemma HeldIdentity(h: HashFn, t: Tree, es: seq<Entry>)
    requires ValidModes(es) && Holds(t, es)
    ensures Identity(h, es) == match Merkle(h, t)
                               case NameTooLong => Err(IdNameTooLong)
                               case Hashed(d, _) => Ok(SCHEME + Hex(d))
  {
    BuildAccepts(es);
    MerkleStatus(h, t);
    if ShortNames(es) {
      var u := Build(es).value;
      forall p
        ensures Lookup(t, p) == Lookup(u, p)
      {
        if Lookup(u, p).Some? {
          BuildOrigin(es, p);
        }
        if path :| Split(path) == p {
          BuildLookup(es, path);
        }
      }
      MerkleOfFiles(h, t, u);
    } else {
      var e :| e in es && !Skipped(e) && HasLongName(Split(e.relpath));
      LongNameShows(es, e);
      assert Lookup(t, Split(e.relpath)).Some?;
      BuildFailsFor(es);
    }
  }

  lemma {:induction false} BuildFailsFor(es: seq<Entry>)
    requires ValidModes(es)
    ensures Build(es).Err? ==> Build(es) == Err(IdNameTooLong)
  {
    if es != [] {
      PrefixElements(es);
      BuildFailsFor(es[..|es| - 1]);
    }
  }

  /** On entries with the modes a materializer emits, the oracle gives the identity the builder
      gives, and rejects what it rejects. */
  method ComputeDagSha256(h: HashFn, entries: seq<Entry>) returns (r: Result<string, IdError>)
    requires ValidModes(entries)
    ensures r == Identity(h, entries)
  {
    var root, at, t := InsertAll(entries);
    HeldIdentity(h, t, entries);
    MirrorsNode(root, at, [], t);
    var hashed := HTreeWithEmptiness(h, root, root, at, [], t);
    if hashed.NameTooLong? {
      return Err(IdNameTooLong);
    }
    r := Ok(SCHEME + Hex(hashed.digest));
  }

  // The loop over the entries.
  method InsertAll(entries: seq<Entry>) returns (root: Node, ghost at: Directories, ghost t: Tree)
    requires ValidModes(entries)
    ensures IsTree(root, at) && fresh(at.Values) && Mirrors(at, [], t) && Holds(t, entries)
  {
    root := new Node();
    at := map[[] := root];
    t := EmptyTree;
    EmptyMirrored(root);
    var i := 0;
    assert Holds(t, entries[..0]);
    while i < |entries|
      invariant 0 <= i <= |entries|
      invariant IsTree(root, at) && fresh(at.Values)
      invariant Mirrors(at, [], t) && Holds(t, entries[..i])
    {
      var e := entries[i];
      HoldsNext(t, entries, i);
      i := i + 1;
      var parts := Split(e.relpath);
      if GIT_COMPONENT in parts {
        continue;
      }
      var blob := Blob(ModeOf(e.mode).value, e.content);
      at := InsertMirrored(root, parts, blob, at, t);
      t := InsertAt(t, parts, blob);
    }
    assert entries[..i] == entries;
  }

  lemma HoldsNext(t: Tree, es: seq<Entry>, i: nat)
    requires i < |es| && ValidModes(es) && Holds(t, es[..i])
    ensures var e := es[i];
            if GIT_COMPONENT in Split(e.relpath) then Holds(t, es[..i + 1])
            else ModeOf(e.mode).Some? && Holds(InsertAt(t, Split(e.relpath), Blob(ModeOf(e.mode).value, e.content)), es[..i + 1])
  {
    HoldsStep(t, es[..i], es[i]);
    assert es[..i + 1] == es[..i] + [es[i]];
  }

  lemma EmptyMirrored(root: Node)
    requires root.blobs == map[] && root.subdirs == map[]
    ensures var at: Directories := map[[] := root]; IsTree(root, at) && Mirrors(at, [], EmptyTree)
  {
    var at: Directories := map[[] := root];
    RootIsTree(root);
    forall d, leaf
      ensures FileAt(at, [] + d, leaf) == Lookup(EmptyTree, d + [leaf])
    {
    }
    forall d: Path
      ensures [] + d in at <==> HasDir(EmptyTree, d)
    {
      assert [] + d == d;
    }
  }
}
