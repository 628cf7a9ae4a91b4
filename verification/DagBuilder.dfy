// The production builder: nested nodes updated in place, then hashed bottom-up.
//
// The nodes reachable from a root are tracked by a ghost map from directory path to node.
// Because it is flat, inserting a path changes it in one place per new directory.
module DagBuilder {
  import opened Common
  import opened Order
  import opened DagTree
  import opened DagIdentity

  class Node {
    var blobs: map<Name, Blob>
    var subdirs: map<Name, Node>

    constructor ()
      ensures blobs == map[] && subdirs == map[]
    {
      blobs, subdirs := map[], map[];
    }
  }

  type Directories = map<Path, Node>

  /** `at` names every directory below `root` by its path, each by a node of its own. */
  ghost predicate IsTree(root: Node, at: Directories)
    reads at.Values
  {
    && [] in at && at[[]] == root
    && Linked(at)
    && (forall p, q :: p in at && q in at && at[p] == at[q] ==> p == q)
  }

  ghost predicate Linked(at: Directories)
    reads at.Values
  {
    forall p, n :: ChildLinked(at, p, n)
  }

  ghost predicate ChildLinked(at: Directories, p: Path, n: Name)
    reads at.Values
  {
    && (p + [n] in at <==> p in at && n in at[p].subdirs)
    && (p + [n] in at ==> at[p].subdirs[n] == at[p + [n]])
  }

  /** The file `leaf` in the directory `d`, read off the nodes. */
  ghost function FileAt(at: Directories, d: Path, leaf: Name): Option<Blob>
    reads at.Values
  {
    if d in at && leaf in at[d].blobs then Some(at[d].blobs[leaf]) else None
  }

  method Insert(root: Node, parts: Path, blob: Blob, ghost at: Directories)
    returns (tooLong: bool, ghost at': Directories)
    requires parts != [] && IsTree(root, at)
    modifies at.Values
    ensures IsTree(root, at') && at.Keys <= at'.Keys
    ensures forall p :: p in at ==> at'[p] == at[p]
    ensures forall p :: p in at' && p !in at ==> fresh(at'[p])
    ensures tooLong <==> HasLongName(parts)
    ensures !tooLong ==> forall d, leaf ::
                FileAt(at', d, leaf) ==
                if d + [leaf] == parts then Some(blob) else old(FileAt(at, d, leaf))
  {
    var node: Node;
    tooLong, node, at' := Descend(root, parts, at);
    if tooLong {
      return;
    }
    var leaf := parts[|parts| - 1];
    if |leaf| > NAME_BYTE_CEILING {
      tooLong := true;
      return;
    }
    assert parts == parts[..|parts| - 1] + [leaf];
    SetBlob(root, node, leaf, blob, at', parts[..|parts| - 1]);
  }

  // The loop over the directories of a path; the node of the last, if no name is too long.
  method Descend(root: Node, parts: Path, ghost at: Directories) returns (tooLong: bool, node: Node, ghost at': Directories)
    requires parts != [] && IsTree(root, at)
    modifies at.Values
    ensures IsTree(root, at') && at.Keys <= at'.Keys
    ensures forall p :: p in at ==> at'[p] == at[p]
    ensures forall p :: p in at' && p !in at ==> fresh(at'[p])
    ensures tooLong <==> HasLongName(parts[..|parts| - 1])
    ensures !tooLong ==> parts[..|parts| - 1] in at' && at'[parts[..|parts| - 1]] == node
    ensures forall d, leaf :: FileAt(at', d, leaf) == old(FileAt(at, d, leaf))
  {
    at' := at;
    node := root;
    var i := 0;
    while i < |parts| - 1
      invariant 0 <= i <= |parts| - 1
      invariant IsTree(root, at') && at.Keys <= at'.Keys
      invariant forall p :: p in at ==> at'[p] == at[p]
      invariant forall p :: p in at' && p !in at ==> fresh(at'[p])
      invariant parts[..i] in at' && at'[parts[..i]] == node
      invariant forall j :: 0 <= j < i ==> |parts[j]| <= NAME_BYTE_CEILING
      invariant forall d, leaf :: FileAt(at', d, leaf) == old(FileAt(at, d, leaf))
    {
      var component := parts[i];
      if |component| > NAME_BYTE_CEILING {
        assert component == parts[..|parts| - 1][i];
        tooLong := true;
        return;
      }
      assert parts[..i + 1] == parts[..i] + [component];
      node, at' := SetDefault(root, node, component, at', parts[..i]);
      i := i + 1;
    }
    tooLong := false;
  }

  // node.blobs[leaf] = (mode_byte, content)
  method SetBlob(root: Node, node: Node, leaf: Name, blob: Blob, ghost at: Directories, ghost p: Path)
    requires IsTree(root, at) && p in at && at[p] == node
    modifies node
    ensures IsTree(root, at)
    ensures forall d, n ::
              FileAt(at, d, n) == if d + [n] == p + [leaf] then Some(blob) else old(FileAt(at, d, n))
  {
    node.blobs := node.blobs[leaf := blob];
    assert forall q :: q in at ==> at[q].subdirs == old(at[q].subdirs);
    forall q, n
      ensures ChildLinked(at, q, n)
    {
      assert old(ChildLinked(at, q, n));
    }
    forall d: Path, n: Name
      ensures d + [n] == p + [leaf] <==> d == p && n == leaf
    {
      if d + [n] == p + [leaf] {
        assert d == (d + [n])[..|d|] && n == (d + [n])[|d|];
      }
    }
  }

  // node.subdirs.setdefault(component, _Node())
  method SetDefault(root: Node, node: Node, component: Name, ghost at: Directories, ghost p: Path)
    returns (child: Node, ghost at': Directories)
    requires IsTree(root, at) && p in at && at[p] == node
    modifies node
    ensures at'.Keys == at.Keys + {p + [component]} && at'[p + [component]] == child
    ensures forall q :: q in at ==> at'[q] == at[q]
    ensures p + [component] !in at ==> fresh(child)
    ensures IsTree(root, at')
    ensures forall d, n :: FileAt(at', d, n) == old(FileAt(at, d, n))
  {
    at' := at;
    assert ChildLinked(at, p, component);
    if component !in node.subdirs {
      at' := AddDirectory(root, node, component, at, p);
      assert ChildLinked(at', p, component);
    }
    child := node.subdirs[component];
  }

  // The same, when the component is new.
  method AddDirectory(root: Node, node: Node, component: Name, ghost at: Directories, ghost p: Path)
    returns (ghost at': Directories)
    requires IsTree(root, at) && p in at && at[p] == node
    requires component !in node.subdirs
    modifies node
    ensures p + [component] !in at
    ensures at'.Keys == at.Keys + {p + [component]}
    ensures forall q :: q in at ==> at'[q] == at[q]
    ensures fresh(at'[p + [component]])
    ensures IsTree(root, at')
    ensures component in node.subdirs
    ensures forall d, n :: FileAt(at', d, n) == old(FileAt(at, d, n))
  {
    assert ChildLinked(at, p, component);
    var child := new Node();
    ghost var c := p + [component];
    at' := at[c := child];
    node.subdirs := node.subdirs[component := child];
    assert forall q :: q in at ==> at[q].blobs == old(at[q].blobs);
    assert forall q :: q in at && q != p ==> at[q].subdirs == old(at[q].subdirs);
    forall q, n
      ensures ChildLinked(at', q, n)
    {
      assert old(ChildLinked(at, q, n));
      if q + [n] == c {
        assert q == (q + [n])[..|q|] && n == (q + [n])[|q|];
      } else if q == c {
        assert old(ChildLinked(at, c, n));
        assert old(ChildLinked(at, p, component));
      }
    }
  }

  // ---- Hashing the nodes ---------------------------------------------------

  /** The node at `p` denotes the tree `t`. */
  ghost predicate Denotes(at: Directories, p: Path, t: Tree)
    reads at.Values
  {
    forall d, leaf :: FileAt(at, p + d, leaf) == Lookup(t, d + [leaf])
  }

  ghost function Subtree(t: Tree, n: Name): Tree {
    if n in t.subdirs then t.subdirs[n] else EmptyTree
  }

  lemma {:induction false} PrefixClosed(root: Node, at: Directories, p: Path, d: Path)
    requires IsTree(root, at) && p + d in at
    ensures p in at
  {
    if d == [] {
      assert p + d == p;
    } else {
      var init, n := d[..|d| - 1], d[|d| - 1];
      assert p + d == (p + init) + [n];
      assert ChildLinked(at, p + init, n);
      PrefixClosed(root, at, p, init);
    }
  }

  lemma DenotesBelow(at: Directories, p: Path, t: Tree, n: Name)
    requires Denotes(at, p, t)
    ensures Denotes(at, p + [n], Subtree(t, n))
  {
    forall d, leaf
      ensures FileAt(at, p + [n] + d, leaf) == Lookup(Subtree(t, n), d + [leaf])
    {
      assert p + [n] + d == p + ([n] + d);
      assert FileAt(at, p + ([n] + d), leaf) == Lookup(t, ([n] + d) + [leaf]);
      assert ([n] + d) + [leaf] == [n] + (d + [leaf]);
      if n in t.subdirs {
        LookupBelow(t, n, d + [leaf]);
      }
    }
  }

  lemma DenotesBlobs(at: Directories, p: Path, t: Tree)
    requires Denotes(at, p, t) && p in at
    ensures at[p].blobs == t.blobs
  {
    forall n
      ensures n in at[p].blobs <==> n in t.blobs
      ensures n in at[p].blobs ==> at[p].blobs[n] == t.blobs[n]
    {
      assert p + [] == p && [] + [n] == [n];
      assert FileAt(at, p + [], n) == Lookup(t, [] + [n]);
    }
  }

  /** A directory with a file below it is there among the nodes. */
  lemma DirectoryIsThere(root: Node, at: Directories, p: Path, t: Tree, n: Name, q: Path)
    requires IsTree(root, at) && p in at && Denotes(at, p, t)
    requires n in t.subdirs && Lookup(t.subdirs[n], q).Some?
    ensures n in at[p].subdirs
  {
    var d, leaf := q[..|q| - 1], q[|q| - 1];
    DenotesBelow(at, p, t, n);
    assert d + [leaf] == q;
    assert FileAt(at, p + [n] + d, leaf) == Lookup(Subtree(t, n), d + [leaf]);
    PrefixClosed(root, at, p + [n], d);
    assert ChildLinked(at, p, n);
  }

  lemma LiveIsThere(h: HashFn, root: Node, at: Directories, p: Path, t: Tree, n: Name)
    requires IsTree(root, at) && p in at && Denotes(at, p, t)
    requires n in t.subdirs && (BadChild(n, Merkle(h, t.subdirs[n])) || Live(h, t, n))
    ensures n in at[p].subdirs
  {
    MerkleStatus(h, t.subdirs[n]);
    var q :| Lookup(t.subdirs[n], q).Some?;
    DirectoryIsThere(root, at, p, t, n, q);
  }

  lemma EmptyMerkle(h: HashFn)
    ensures Merkle(h, EmptyTree).Hashed? && Merkle(h, EmptyTree).empty
  {
  }

  method CollectBlobs(h: HashFn, node: Node) returns (tooLong: bool, items: seq<Item>)
    ensures tooLong <==> exists n :: n in node.blobs && |n| > NAME_BYTE_CEILING
    ensures !tooLong ==>
              forall it :: it in items <==>
                it.name in node.blobs && it == BlobItem(h, it.name, node.blobs[it.name])
    ensures FilesFirst(items)
  {
    items := [];
    var todo := node.blobs.Keys;
    while todo != {}
      invariant todo <= node.blobs.Keys
      invariant forall it :: it in items <==>
                  it.name in node.blobs && it.name !in todo && it == BlobItem(h, it.name, node.blobs[it.name])
      invariant forall n :: n in node.blobs && n !in todo ==> |n| <= NAME_BYTE_CEILING
      invariant FilesFirst(items)
    {
      var leaf :| leaf in todo;
      if |leaf| > NAME_BYTE_CEILING {
        return true, items;
      }
      items := items + [BlobItem(h, leaf, node.blobs[leaf])];
      todo := todo - {leaf};
    }
    tooLong := false;
  }

  method HashTree(h: HashFn, node: Node, ghost root: Node, ghost at: Directories, ghost p: Path,
                  ghost t: Tree, ghost depth: nat)
    returns (r: Hashed)
    requires IsTree(root, at) && p in at && at[p] == node && Denotes(at, p, t)
    requires forall q :: q in at ==> |q| <= depth
    ensures r == Merkle(h, t)
    decreases depth - |p|, 1
  {
    var tooLong, items := CollectBlobs(h, node);
    DenotesBlobs(at, p, t);
    if tooLong {
      return NameTooLong;
    }
    tooLong, items := CollectSubtrees(h, node, items, root, at, p, t, depth);
    if tooLong {
      return NameTooLong;
    }
    NodeItems(h, root, at, p, t, items);
    SortIsCanonical(items, Items(h, t));
    items := StableSort(NameLeq, items);
    r := Hashed(h(EncodeItems(items)), |items| == 0);
    assert items == [] <==> Items(h, t) == {} by {
      assert forall it :: it in items <==> it in Items(h, t);
      if items != [] {
        assert items[0] in items;
      }
    }
  }

  /** `items` lists the files, then the entries of the subdirectories in `done`. */
  ghost predicate Collected(h: HashFn, node: Node, t: Tree, files: seq<Item>, done: set<Name>, items: seq<Item>)
    reads node
  {
    && (forall it :: it in items <==> it in files || (it.name in done && IsSubItem(h, node, t, it)))
    && (forall n :: n in done ==> !BadChild(n, Merkle(h, Subtree(t, n))))
    && FilesFirst(items)
  }

  lemma CollectEmpty(h: HashFn, node: Node, t: Tree, files: seq<Item>, done: set<Name>, items: seq<Item>, n: Name)
    requires Collected(h, node, t, files, done, items)
    requires n in node.subdirs && n !in done && !BadChild(n, Merkle(h, Subtree(t, n)))
    requires Merkle(h, Subtree(t, n)).empty
    ensures Collected(h, node, t, files, done + {n}, items)
  {
  }

  lemma FilesFirstNext(items: seq<Item>, x: Item)
    requires FilesFirst(items) && x.kind.TreeKind?
    requires forall it :: it in items && it.name == x.name ==> it.kind.BlobKind?
    ensures FilesFirst(items + [x])
  {
  }

  lemma CollectItem(h: HashFn, node: Node, t: Tree, files: seq<Item>, done: set<Name>, items: seq<Item>, n: Name)
    requires Collected(h, node, t, files, done, items)
    requires forall it :: it in files ==> it.kind.BlobKind?
    requires n in node.subdirs && n !in done && !BadChild(n, Merkle(h, Subtree(t, n)))
    requires !Merkle(h, Subtree(t, n)).empty
    ensures Collected(h, node, t, files, done + {n}, items + [Item(n, TreeKind, Merkle(h, Subtree(t, n)).digest)])
  {
    var x := Item(n, TreeKind, Merkle(h, Subtree(t, n)).digest);
    FilesFirstNext(items, x);
    forall it
      ensures it in items + [x] <==> it in files || (it.name in done + {n} && IsSubItem(h, node, t, it))
    {
      if it.name == n {
        assert IsSubItem(h, node, t, it) <==> it == x;
      }
    }
  }

  method CollectSubtrees(h: HashFn, node: Node, files: seq<Item>, ghost root: Node, ghost at: Directories,
                         ghost p: Path, ghost t: Tree, ghost depth: nat)
    returns (tooLong: bool, items: seq<Item>)
    requires IsTree(root, at) && p in at && at[p] == node && Denotes(at, p, t)
    requires forall q :: q in at ==> |q| <= depth
    requires FilesFirst(files) && forall it :: it in files ==> it.kind.BlobKind?
    ensures tooLong ==> Merkle(h, t).NameTooLong?
    ensures !tooLong ==> Collected(h, node, t, files, node.subdirs.Keys, items)
    decreases depth - |p|, 0
  {
    items := files;
    var subs := node.subdirs.Keys;
    while subs != {}
      invariant subs <= node.subdirs.Keys
      invariant Collected(h, node, t, files, node.subdirs.Keys - subs, items)
    {
      var leaf :| leaf in subs;
      assert ChildLinked(at, p, leaf);
      DenotesBelow(at, p, t, leaf);
      var sub := HashTree(h, node.subdirs[leaf], root, at, p + [leaf], Subtree(t, leaf), depth);
      if BadChild(leaf, sub) {
        BadChildFails(h, t, leaf);
        return true, items;
      }
      assert node.subdirs.Keys - (subs - {leaf}) == (node.subdirs.Keys - subs) + {leaf};
      if sub.empty {
        CollectEmpty(h, node, t, files, node.subdirs.Keys - subs, items, leaf);
      } else {
        CollectItem(h, node, t, files, node.subdirs.Keys - subs, items, leaf);
        items := items + [Item(leaf, TreeKind, sub.digest)];
      }
      subs := subs - {leaf};
    }
    assert node.subdirs.Keys - subs == node.subdirs.Keys;
    tooLong := false;
  }

  ghost predicate IsSubItem(h: HashFn, node: Node, t: Tree, it: Item)
    reads node
  {
    && it.name in node.subdirs && it.kind.TreeKind?
    && Merkle(h, Subtree(t, it.name)).Hashed? && !Merkle(h, Subtree(t, it.name)).empty
    && it.digest == Merkle(h, Subtree(t, it.name)).digest
  }

  lemma BadChildFails(h: HashFn, t: Tree, n: Name)
    requires BadChild(n, Merkle(h, Subtree(t, n)))
    ensures Merkle(h, t).NameTooLong?
  {
    EmptyMerkle(h);
    assert n in t.subdirs;
  }

  lemma NodeItems(h: HashFn, root: Node, at: Directories, p: Path, t: Tree, items: seq<Item>)
    requires IsTree(root, at) && p in at && Denotes(at, p, t)
    requires forall n :: n in at[p].blobs ==> |n| <= NAME_BYTE_CEILING
    requires forall n :: n in at[p].subdirs ==> !BadChild(n, Merkle(h, Subtree(t, n)))
    requires forall it :: it in items <==>
               || (it.name in at[p].blobs && it == BlobItem(h, it.name, at[p].blobs[it.name]))
               || IsSubItem(h, at[p], t, it)
    ensures Merkle(h, t).Hashed?
    ensures forall it :: it in items <==> it in Items(h, t)
  {
    DenotesBlobs(at, p, t);
    EmptyMerkle(h);
    forall it
      ensures it in items <==> it in Items(h, t)
    {
      if it in items {
        if it.kind.BlobKind? {
          BlobItemIn(h, t, it.name);
        } else {
          TreeItemIn(h, t, it.name);
        }
      }
      if it in Items(h, t) {
        ItemOrigin(h, t, it);
        if it.kind.TreeKind? {
          LiveIsThere(h, root, at, p, t, it.name);
        }
      }
    }
    forall n | n in t.subdirs
      ensures !BadChild(n, Merkle(h, t.subdirs[n]))
    {
      if BadChild(n, Merkle(h, t.subdirs[n])) {
        LiveIsThere(h, root, at, p, t, n);
      }
    }
  }

  lemma {:induction false} BoundedDepth(paths: set<Path>) returns (depth: nat)
    ensures forall q :: q in paths ==> |q| <= depth
  {
    if paths == {} {
      depth := 0;
    } else {
      var q :| q in paths;
      depth := BoundedDepth(paths - {q});
      depth := if |q| > depth then |q| else depth;
      assert forall r :: r in paths ==> r == q || r in paths - {q};
    }
  }

  lemma {:induction false} BuildErrorSticks(es: seq<Entry>, i: nat)
    requires i <= |es| && Build(es[..i]).Err?
    ensures Build(es) == Build(es[..i])
    decreases |es|
  {
    if i == |es| {
      assert es[..i] == es;
    } else {
      assert es[..|es| - 1][..i] == es[..i];
      BuildErrorSticks(es[..|es| - 1], i);
    }
  }

  // Insert, told by what the nodes denote.
  method InsertDenoted(root: Node, parts: Path, blob: Blob, ghost at: Directories, ghost t: Tree)
    returns (tooLong: bool, ghost at': Directories)
    requires parts != [] && IsTree(root, at) && Denotes(at, [], t)
    modifies at.Values
    ensures IsTree(root, at') && fresh(at'.Values - at.Values)
    ensures tooLong <==> HasLongName(parts)
    ensures !tooLong ==> Denotes(at', [], InsertAt(t, parts, blob))
  {
    tooLong, at' := Insert(root, parts, blob, at);
    if !tooLong {
      forall d, leaf
        ensures FileAt(at', [] + d, leaf) == Lookup(InsertAt(t, parts, blob), d + [leaf])
      {
        assert [] + d == d;
        assert old(FileAt(at, [] + d, leaf)) == Lookup(t, d + [leaf]);
        LookupInsert(t, parts, blob, d + [leaf]);
      }
    }
  }

  lemma RootIsTree(root: Node)
    requires root.subdirs == map[]
    ensures IsTree(root, map[[] := root])
  {
    var at: Directories := map[[] := root];
    forall p: Path, n: Name
      ensures p + [n] != []
    {
      assert |p + [n]| > 0;
    }
    assert Linked(at);
  }

  lemma BuildNext(es: seq<Entry>, i: nat)
    requires i < |es|
    ensures Build(es[..i + 1]) == AddEntry(Build(es[..i]), es[i])
  {
    assert es[..i + 1][..i] == es[..i];
  }

  /** The production entry point computes the identity of the files its entries denote. */
  method ComputeDagIdentity(h: HashFn, entries: seq<Entry>) returns (r: Result<string, IdError>)
    ensures r == Identity(h, entries)
  {
    var root := new Node();
    ghost var at: Directories := map[[] := root];
    RootIsTree(root);
    assert entries[..0] == [];
    var i := 0;
    while i < |entries|
      invariant 0 <= i <= |entries|
      invariant IsTree(root, at) && fresh(at.Values)
      invariant Build(entries[..i]).Ok? && Denotes(at, [], Build(entries[..i]).value)
    {
      var entry := entries[i];
      ghost var t := Build(entries[..i]).value;
      BuildNext(entries, i);
      i := i + 1;
      var parts := Split(entry.relpath);
      if GIT_COMPONENT in parts {
        continue;
      }
      if ModeOf(entry.mode).None? {
        BuildErrorSticks(entries, i);
        return Err(BadMode);
      }
      var blob := Blob(ModeOf(entry.mode).value, entry.content);
      var tooLong;
      tooLong, at := InsertDenoted(root, parts, blob, at, t);
      if tooLong {
        BuildErrorSticks(entries, i);
        return Err(IdNameTooLong);
      }
    }
    assert entries[..i] == entries;
    ghost var t := Build(entries).value;
    ghost var depth := BoundedDepth(at.Keys);
    var hashed := HashTree(h, root, root, at, [], t, depth);
    IdentityAccepts(h, entries);
    r := Ok(SCHEME + Hex(hashed.digest));
  }
}
