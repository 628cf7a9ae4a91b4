// The canonical content Merkle DAG of a directory tree: its digest, and what the digest says.
//
// Names are the UTF-8 bytes of a single path component. A Tree is what the nested _Node
// objects denote once the order of their dictionaries is forgotten.
module DagTree {
  import opened Common
  import opened Order

  const NAME_BYTE_CEILING: nat := 4096
  const MODE_TREE: Byte := 0x40

  type Name = Bytes
  type Path = seq<Name>

  // The three modes a materializer may emit.
  datatype BlobMode = Regular | Executable | Symlink

  function ModeByte(m: BlobMode): Byte {
    match m
    case Regular => 0x00
    case Executable => 0x01
    case Symlink => 0x80
  }

  datatype Blob = Blob(mode: BlobMode, content: Bytes)
  datatype Tree = Tree(blobs: map<Name, Blob>, subdirs: map<Name, Tree>)

  const EmptyTree := Tree(map[], map[])

  /** The file at a path, if there is one: a file and a directory may share a leaf name. */
  function Lookup(t: Tree, p: Path): Option<Blob>
    decreases p
  {
    if p == [] then None
    else if |p| == 1 then (if p[0] in t.blobs then Some(t.blobs[p[0]]) else None)
    else if p[0] in t.subdirs then Lookup(t.subdirs[p[0]], p[1..])
    else None
  }

  ghost predicate SameFiles(t: Tree, u: Tree) {
    forall p :: Lookup(t, p) == Lookup(u, p)
  }

  /** Some directory component or the leaf name is over the ceiling. */
  predicate HasLongName(p: Path) {
    exists n :: n in p && |n| > NAME_BYTE_CEILING
  }

  // ---- Tree-node entries -------------------------------------------------

  datatype Kind = BlobKind(mode: BlobMode) | TreeKind
  datatype Item = Item(name: Name, kind: Kind, digest: Digest)

  function KindByte(k: Kind): Byte {
    match k
    case BlobKind(m) => ModeByte(m)
    case TreeKind => MODE_TREE
  }

  function U32(n: nat): Bytes {
    [n / 0x1000000 % 0x100, n / 0x10000 % 0x100, n / 0x100 % 0x100, n % 0x100]
  }

  function EncodeEntry(name: Name, mode: Byte, digest: Digest): Bytes {
    U32(|name|) + name + [mode] + digest
  }

  function EncodeItem(it: Item): Bytes {
    EncodeEntry(it.name, KindByte(it.kind), it.digest)
  }

  function EncodeItems(items: seq<Item>): Bytes {
    if items == [] then [] else EncodeItem(items[0]) + EncodeItems(items[1..])
  }

  lemma U32Injective(m: nat, n: nat)
    requires m <= NAME_BYTE_CEILING && n <= NAME_BYTE_CEILING
    requires U32(m) == U32(n)
    ensures m == n
  {
    assert U32(m)[2] == U32(n)[2] && U32(m)[3] == U32(n)[3];
    assert m / 0x100 % 0x100 == m / 0x100 && n / 0x100 % 0x100 == n / 0x100;
  }

  /** Length-prefixed entries are self-delimiting: the first one can be cut off in one way. */
  lemma DecodeUnique(a: Item, x: Bytes, b: Item, y: Bytes)
    requires |a.name| <= NAME_BYTE_CEILING && |b.name| <= NAME_BYTE_CEILING
    requires EncodeItem(a) + x == EncodeItem(b) + y
    ensures a == b && x == y
  {
    EncodedParts(a, x);
    EncodedParts(b, y);
    U32Injective(|a.name|, |b.name|);
  }

  lemma EncodedParts(a: Item, x: Bytes)
    ensures var s, n := EncodeItem(a) + x, |a.name|;
            && |s| == 37 + n + |x|
            && s[..4] == U32(n) && s[4..4 + n] == a.name && s[4 + n] == KindByte(a.kind)
            && s[5 + n..37 + n] == a.digest && s[37 + n..] == x
  {
  }

  lemma {:induction false} EncodeItemsInjective(a: seq<Item>, b: seq<Item>)
    requires forall it :: it in a || it in b ==> |it.name| <= NAME_BYTE_CEILING
    requires EncodeItems(a) == EncodeItems(b)
    ensures a == b
  {
    if a != [] && b != [] {
      assert a[0] in a && b[0] in b;
      DecodeUnique(a[0], EncodeItems(a[1..]), b[0], EncodeItems(b[1..]));
      assert forall it :: it in a[1..] ==> it in a;
      assert forall it :: it in b[1..] ==> it in b;
      EncodeItemsInjective(a[1..], b[1..]);
      assert a == [a[0]] + a[1..] && b == [b[0]] + b[1..];
    }
  }

  // ---- Canonical order ---------------------------------------------------

  /** Ascending leaf name; of a file and a directory of one name, the file is first. */
  predicate ItemLess(x: Item, y: Item) {
    LexLess(x.name, y.name) || (x.name == y.name && x.kind.BlobKind? && y.kind.TreeKind?)
  }

  predicate ItemLeq(x: Item, y: Item) {
    !ItemLess(y, x)
  }

  lemma ItemLessStrict()
    ensures StrictOrder(ItemLess)
  {
    forall x: Item
      ensures !ItemLess(x, x)
    {
      LexIrreflexive(x.name);
    }
    forall x: Item, y: Item, z: Item | ItemLess(x, y) && ItemLess(y, z)
      ensures ItemLess(x, z)
    {
      if LexLess(x.name, y.name) && LexLess(y.name, z.name) {
        LexTransitive(x.name, y.name, z.name);
      }
    }
  }

  ghost predicate Comparable(items: set<Item>) {
    forall x, y :: x in items && y in items && x != y ==> ItemLess(x, y) || ItemLess(y, x)
  }

  /** The one strictly sorted listing of a set of items. */
  ghost function Ordering(items: set<Item>): (r: seq<Item>)
    requires Comparable(items)
    ensures StrictlySorted(ItemLess, r)
    ensures forall x :: x in r <==> x in items
  {
    if items == {} then
      []
    else
      var x :| x in items;
      var rest := Ordering(items - {x});
      assert StrictlySorted(ItemLess, Insert(ItemLeq, rest, x)) by {
        ItemLessStrict();
        InsertStrict(ItemLess, ItemLeq, rest, x);
      }
      assert forall y :: y in Insert(ItemLeq, rest, x) <==> y in items by {
        forall y
          ensures y in Insert(ItemLeq, rest, x) <==> y in items
        {
          InsertElements(ItemLeq, rest, x, y);
        }
      }
      Insert(ItemLeq, rest, x)
  }

  /** The sort key is the leaf name alone. */
  predicate NameLeq(x: Item, y: Item) {
    !LexLess(y.name, x.name)
  }

  /** Files listed before directories, each name once in either part. */
  predicate FilesFirst(items: seq<Item>) {
    forall i, j :: 0 <= i < j < |items| ==>
      && (items[i].name == items[j].name ==> items[i].kind.BlobKind? && items[j].kind.TreeKind?)
  }

  /** Whatever order the dictionaries were read in, the stable sort leaves the canonical order. */
  lemma SortIsCanonical(items: seq<Item>, all: set<Item>)
    requires Comparable(all) && FilesFirst(items)
    requires forall it :: it in items <==> it in all
    ensures StableSort(NameLeq, items) == Ordering(all)
  {
    ItemLessStrict();
    forall i, j | 0 <= i < j < |items|
      ensures Refines(ItemLess, NameLeq, items[i], items[j])
    {
      LexTotal(items[i].name, items[j].name);
    }
    StableSortStrict(ItemLess, NameLeq, items);
    forall it
      ensures it in StableSort(NameLeq, items) <==> it in Ordering(all)
    {
      SortKeepsElements(NameLeq, items, it);
    }
    StrictlySortedUnique(ItemLess, StableSort(NameLeq, items), Ordering(all));
  }

  // ---- The digest of a tree ----------------------------------------------

  // What hashing a node gives: its digest and whether it had no entries, or ID-NAME-TOO-LONG.
  datatype Hashed = Hashed(digest: Digest, empty: bool) | NameTooLong

  /** The child is too long a name to be an entry, or fails below. An empty child is no entry. */
  predicate BadChild(n: Name, r: Hashed) {
    r.NameTooLong? || (!r.empty && |n| > NAME_BYTE_CEILING)
  }

  ghost predicate HasBadChild(h: HashFn, t: Tree)
    decreases t, 0
  {
    || (exists n :: n in t.blobs && |n| > NAME_BYTE_CEILING)
    || (exists n :: n in t.subdirs && BadChild(n, Merkle(h, t.subdirs[n])))
  }

  ghost function BlobItems(h: HashFn, t: Tree): set<Item> {
    set n | n in t.blobs :: Item(n, BlobKind(t.blobs[n].mode), h(t.blobs[n].content))
  }

  ghost function TreeItems(h: HashFn, t: Tree): set<Item>
    decreases t, 0
  {
    set n | n in t.subdirs && Merkle(h, t.subdirs[n]).Hashed? && !Merkle(h, t.subdirs[n]).empty
      :: Item(n, TreeKind, Merkle(h, t.subdirs[n]).digest)
  }

  ghost function Items(h: HashFn, t: Tree): (r: set<Item>)
    ensures Comparable(r)
    decreases t, 1
  {
    var r := BlobItems(h, t) + TreeItems(h, t);
    assert Comparable(r) by {
      forall x, y | x in r && y in r && x != y
        ensures ItemLess(x, y) || ItemLess(y, x)
      {
        LexTotal(x.name, y.name);
      }
    }
    r
  }

  /** The bytes a tree node hashes: its entries in canonical order, end to end. */
  ghost function Encoding(h: HashFn, t: Tree): Bytes
    decreases t, 2
  {
    EncodeItems(Ordering(Items(h, t)))
  }

  ghost function Merkle(h: HashFn, t: Tree): Hashed
    decreases t, 3
  {
    if HasBadChild(h, t) then NameTooLong
    else Hashed(h(Encoding(h, t)), Items(h, t) == {})
  }

  /** A subdirectory that contributes an entry to its parent. */
  ghost predicate Live(h: HashFn, t: Tree, n: Name) {
    n in t.subdirs && Merkle(h, t.subdirs[n]).Hashed? && !Merkle(h, t.subdirs[n]).empty
  }

  function BlobItem(h: HashFn, n: Name, b: Blob): Item {
    Item(n, BlobKind(b.mode), h(b.content))
  }

  lemma BlobItemIn(h: HashFn, t: Tree, n: Name)
    requires n in t.blobs
    ensures BlobItem(h, n, t.blobs[n]) in Items(h, t)
  {
    assert BlobItem(h, n, t.blobs[n]) in BlobItems(h, t);
  }

  lemma TreeItemIn(h: HashFn, t: Tree, n: Name)
    requires Live(h, t, n)
    ensures Item(n, TreeKind, Merkle(h, t.subdirs[n]).digest) in Items(h, t)
  {
    assert Item(n, TreeKind, Merkle(h, t.subdirs[n]).digest) in TreeItems(h, t);
  }

  lemma ItemOrigin(h: HashFn, t: Tree, it: Item)
    requires it in Items(h, t)
    ensures it.kind.BlobKind? ==> it.name in t.blobs && it == BlobItem(h, it.name, t.blobs[it.name])
    ensures it.kind.TreeKind? ==> Live(h, t, it.name) && it.digest == Merkle(h, t.subdirs[it.name]).digest
  {
    assert it in BlobItems(h, t) || it in TreeItems(h, t);
  }

  lemma GoodChild(h: HashFn, t: Tree, n: Name)
    requires Merkle(h, t).Hashed? && n in t.subdirs
    ensures !BadChild(n, Merkle(h, t.subdirs[n]))
  {
    assert !HasBadChild(h, t);
  }

  lemma LookupBelow(t: Tree, n: Name, p: Path)
    requires p != [] && n in t.subdirs
    ensures Lookup(t, [n] + p) == Lookup(t.subdirs[n], p)
  {
    assert ([n] + p)[1..] == p;
  }

  ghost predicate StatusKnown(h: HashFn, t: Tree) {
    && (Merkle(h, t).NameTooLong? <==> exists p :: Lookup(t, p).Some? && HasLongName(p))
    && (Merkle(h, t).Hashed? ==> (Merkle(h, t).empty <==> forall p :: Lookup(t, p).None?))
  }

  /** The error and the emptiness flag are facts about the files alone. */
  lemma {:induction false} MerkleStatus(h: HashFn, t: Tree)
    ensures Merkle(h, t).NameTooLong? <==> exists p :: Lookup(t, p).Some? && HasLongName(p)
    ensures Merkle(h, t).Hashed? ==> (Merkle(h, t).empty <==> forall p :: Lookup(t, p).None?)
    decreases t
  {
    forall n | n in t.subdirs
      ensures StatusKnown(h, t.subdirs[n])
    {
      MerkleStatus(h, t.subdirs[n]);
    }
    if Merkle(h, t).NameTooLong? {
      TooLongWitness(h, t);
    } else if !Merkle(h, t).empty {
      FileWitness(h, t);
    }
    forall p | Lookup(t, p).Some?
      ensures HasLongName(p) ==> Merkle(h, t).NameTooLong?
      ensures Merkle(h, t).Hashed? ==> !Merkle(h, t).empty
    {
      FileShows(h, t, p);
    }
  }

  lemma TooLongWitness(h: HashFn, t: Tree)
    requires forall n :: n in t.subdirs ==> StatusKnown(h, t.subdirs[n])
    requires Merkle(h, t).NameTooLong?
    ensures exists p :: Lookup(t, p).Some? && HasLongName(p)
  {
    if n :| n in t.blobs && |n| > NAME_BYTE_CEILING {
      assert n in [n] && Lookup(t, [n]).Some?;
    } else {
      var n :| n in t.subdirs && BadChild(n, Merkle(h, t.subdirs[n]));
      LongNameBelow(h, t, n);
    }
  }

  lemma LongNameBelow(h: HashFn, t: Tree, n: Name)
    requires n in t.subdirs && StatusKnown(h, t.subdirs[n]) && BadChild(n, Merkle(h, t.subdirs[n]))
    ensures exists p :: Lookup(t, p).Some? && HasLongName(p)
  {
    var sub := t.subdirs[n];
    var p :| Lookup(sub, p).Some? && (|n| > NAME_BYTE_CEILING || HasLongName(p));
    LookupBelow(t, n, p);
    assert forall m :: m in [n] + p <==> m == n || m in p;
  }

  lemma FileWitness(h: HashFn, t: Tree)
    requires forall n :: n in t.subdirs ==> StatusKnown(h, t.subdirs[n])
    requires Items(h, t) != {}
    ensures exists p :: Lookup(t, p).Some?
  {
    var it :| it in Items(h, t);
    ItemOrigin(h, t, it);
    var n := it.name;
    if it.kind.BlobKind? {
      assert Lookup(t, [n]).Some?;
    } else {
      assert StatusKnown(h, t.subdirs[n]);
      var p :| Lookup(t.subdirs[n], p).Some?;
      LookupBelow(t, n, p);
    }
  }

  // A file keeps its node from being empty, and fails it if a name on its path is too long.
  lemma FileShows(h: HashFn, t: Tree, p: Path)
    requires forall n :: n in t.subdirs ==> StatusKnown(h, t.subdirs[n])
    requires Lookup(t, p).Some?
    ensures HasLongName(p) ==> Merkle(h, t).NameTooLong?
    ensures Merkle(h, t).Hashed? ==> !Merkle(h, t).empty
  {
    if |p| == 1 {
      BlobItemIn(h, t, p[0]);
      assert p == [p[0]];
    } else {
      assert StatusKnown(h, t.subdirs[p[0]]);
      DeepFileShows(h, t, p[0], p[1..]);
      assert forall m :: m in p ==> m == p[0] || m in p[1..];
    }
  }

  lemma DeepFileShows(h: HashFn, t: Tree, n: Name, q: Path)
    requires n in t.subdirs && StatusKnown(h, t.subdirs[n]) && Lookup(t.subdirs[n], q).Some?
    ensures |n| > NAME_BYTE_CEILING || HasLongName(q) ==> Merkle(h, t).NameTooLong?
    ensures Merkle(h, t).Hashed? ==> Items(h, t) != {}
  {
    if Merkle(h, t).Hashed? {
      GoodChild(h, t, n);
      TreeItemIn(h, t, n);
    }
  }

  // ---- The digest is a function of the files, and determines them -----------

  /** Two trees with the same files have the same digest, emptiness and error: directories that
      hold no file anywhere below them do not show. */
  lemma {:induction false} MerkleOfFiles(h: HashFn, t: Tree, u: Tree)
    requires SameFiles(t, u)
    ensures Merkle(h, t) == Merkle(h, u)
    decreases t
  {
    MerkleStatus(h, t);
    MerkleStatus(h, u);
    if Merkle(h, t).Hashed? {
      forall n | Live(h, t, n) || Live(h, u, n)
        ensures Live(h, t, n) && Live(h, u, n) && Merkle(h, t.subdirs[n]) == Merkle(h, u.subdirs[n])
      {
        SameSubdir(h, t, u, n);
        MerkleOfFiles(h, t.subdirs[n], u.subdirs[n]);
      }
      SameItems(h, t, u);
    }
  }

  lemma SameItems(h: HashFn, t: Tree, u: Tree)
    requires SameFiles(t, u)
    requires forall n :: Live(h, t, n) || Live(h, u, n) ==>
               Live(h, t, n) && Live(h, u, n) && Merkle(h, t.subdirs[n]) == Merkle(h, u.subdirs[n])
    ensures Items(h, t) == Items(h, u)
  {
    forall n | n in t.blobs || n in u.blobs
      ensures n in t.blobs && n in u.blobs && t.blobs[n] == u.blobs[n]
    {
      assert Lookup(t, [n]) == Lookup(u, [n]);
    }
    forall it
      ensures it in Items(h, t) <==> it in Items(h, u)
    {
      SameItem(h, t, u, it);
      SameItem(h, u, t, it);
    }
  }

  lemma SameItem(h: HashFn, t: Tree, u: Tree, it: Item)
    requires forall n :: Live(h, t, n) ==> Live(h, u, n) && Merkle(h, t.subdirs[n]) == Merkle(h, u.subdirs[n])
    requires forall n :: n in t.blobs ==> n in u.blobs && t.blobs[n] == u.blobs[n]
    ensures it in Items(h, t) ==> it in Items(h, u)
  {
    if it in Items(h, t) {
      ItemOrigin(h, t, it);
      if it.kind.BlobKind? {
        BlobItemIn(h, u, it.name);
      } else {
        TreeItemIn(h, u, it.name);
      }
    }
  }

  lemma SameSubdir(h: HashFn, t: Tree, u: Tree, n: Name)
    requires SameFiles(t, u) && Merkle(h, t).Hashed? && Merkle(h, u).Hashed?
    requires Live(h, t, n) || Live(h, u, n)
    ensures n in t.subdirs && n in u.subdirs && SameFiles(t.subdirs[n], u.subdirs[n])
  {
    if Live(h, t, n) {
      LiveInBoth(h, t, u, n);
    } else {
      LiveInBoth(h, u, t, n);
    }
    SameBelow(t, u, n);
  }

  lemma LiveInBoth(h: HashFn, t: Tree, u: Tree, n: Name)
    requires SameFiles(t, u) && Live(h, t, n)
    ensures n in u.subdirs
  {
    MerkleStatus(h, t.subdirs[n]);
    var q :| Lookup(t.subdirs[n], q).Some?;
    LookupBelow(t, n, q);
    assert Lookup(t, [n] + q) == Lookup(u, [n] + q);
  }

  lemma SameBelow(t: Tree, u: Tree, n: Name)
    requires SameFiles(t, u) && n in t.subdirs && n in u.subdirs
    ensures SameFiles(t.subdirs[n], u.subdirs[n])
  {
    forall p
      ensures Lookup(t.subdirs[n], p) == Lookup(u.subdirs[n], p)
    {
      if p != [] {
        LookupBelow(t, n, p);
        LookupBelow(u, n, p);
        assert Lookup(t, [n] + p) == Lookup(u, [n] + p);
      }
    }
  }

  /** `x` is one of the strings hashed in computing the digest of `t`. */
  ghost predicate Hashes(h: HashFn, t: Tree, x: Bytes) {
    || x == Encoding(h, t)
    || (exists n :: n in t.blobs && x == t.blobs[n].content)
    || (exists n :: n in t.subdirs && Hashes(h, t.subdirs[n], x))
  }

  /** Two distinct strings, one hashed for each tree, have one digest. */
  ghost predicate Colliding(h: HashFn, t: Tree, u: Tree) {
    exists x, y :: Hashes(h, t, x) && Hashes(h, u, y) && Collide(h, x, y)
  }

  /** Equal digests mean equal files, unless the hash function has been seen to collide. */
  lemma {:induction false} MerkleDeterminesFiles(h: HashFn, t: Tree, u: Tree)
    requires Merkle(h, t).Hashed? && Merkle(h, u).Hashed?
    requires Merkle(h, t).digest == Merkle(h, u).digest
    ensures SameFiles(t, u) || Colliding(h, t, u)
    decreases t
  {
    if Encoding(h, t) != Encoding(h, u) {
      assert Collide(h, Encoding(h, t), Encoding(h, u));
    } else if !Colliding(h, t, u) {
      EqualEncodings(h, t, u);
      forall n | Live(h, t, n)
        ensures Live(h, u, n) && SameFiles(t.subdirs[n], u.subdirs[n])
      {
        SameLive(h, t, u, n);
        MerkleDeterminesFiles(h, t.subdirs[n], u.subdirs[n]);
        CollisionBelow(h, t, u, n);
      }
      forall p
        ensures Lookup(t, p) == Lookup(u, p)
      {
        SamePath(h, t, u, p);
      }
    }
  }

  lemma SameLive(h: HashFn, t: Tree, u: Tree, n: Name)
    requires Items(h, t) == Items(h, u) && Live(h, t, n)
    ensures Live(h, u, n) && Merkle(h, t.subdirs[n]).digest == Merkle(h, u.subdirs[n]).digest
  {
    TreeItemIn(h, t, n);
    ItemOrigin(h, u, Item(n, TreeKind, Merkle(h, t.subdirs[n]).digest));
  }

  lemma SamePath(h: HashFn, t: Tree, u: Tree, p: Path)
    requires Merkle(h, t).Hashed? && Merkle(h, u).Hashed?
    requires Items(h, t) == Items(h, u) && !Colliding(h, t, u)
    requires forall n :: Live(h, t, n) ==> Live(h, u, n) && SameFiles(t.subdirs[n], u.subdirs[n])
    ensures Lookup(t, p) == Lookup(u, p)
  {
    if |p| == 1 {
      SameBlob(h, t, u, p[0]);
      CollidingSymmetric(h, t, u);
      SameBlob(h, u, t, p[0]);
    } else if |p| > 1 {
      var n := p[0];
      if Live(h, u, n) {
        SameLive(h, u, t, n);
      }
      if !Live(h, t, n) {
        NotLive(h, t, n, p[1..]);
        NotLive(h, u, n, p[1..]);
      }
    }
  }

  lemma CollidingSymmetric(h: HashFn, t: Tree, u: Tree)
    ensures Colliding(h, t, u) <==> Colliding(h, u, t)
  {
    if Colliding(h, t, u) {
      var x, y :| Hashes(h, t, x) && Hashes(h, u, y) && Collide(h, x, y);
      assert Collide(h, y, x);
    }
    if Colliding(h, u, t) {
      var x, y :| Hashes(h, u, x) && Hashes(h, t, y) && Collide(h, x, y);
      assert Collide(h, y, x);
    }
  }

  lemma EqualEncodings(h: HashFn, t: Tree, u: Tree)
    requires Merkle(h, t).Hashed? && Merkle(h, u).Hashed?
    requires Encoding(h, t) == Encoding(h, u)
    ensures Items(h, t) == Items(h, u)
  {
    var a, b := Ordering(Items(h, t)), Ordering(Items(h, u));
    forall it | it in a || it in b
      ensures |it.name| <= NAME_BYTE_CEILING
    {
      ShortName(h, if it in a then t else u, it);
    }
    EncodeItemsInjective(a, b);
    assert forall it :: it in Items(h, t) <==> it in a;
    assert forall it :: it in Items(h, u) <==> it in b;
  }

  lemma ShortName(h: HashFn, t: Tree, it: Item)
    requires Merkle(h, t).Hashed? && it in Items(h, t)
    ensures |it.name| <= NAME_BYTE_CEILING
  {
    ItemOrigin(h, t, it);
    if it.kind.TreeKind? {
      GoodChild(h, t, it.name);
    }
  }

  lemma SameBlob(h: HashFn, t: Tree, u: Tree, n: Name)
    requires Items(h, t) == Items(h, u) && !Colliding(h, t, u)
    ensures n in t.blobs ==> n in u.blobs && t.blobs[n] == u.blobs[n]
  {
    if n in t.blobs {
      BlobItemIn(h, t, n);
      ItemOrigin(h, u, BlobItem(h, n, t.blobs[n]));
      assert n in u.blobs && t.blobs[n].mode == u.blobs[n].mode && h(t.blobs[n].content) == h(u.blobs[n].content);
      BlobsTold(h, t, u, n);
    }
  }

  lemma BlobsTold(h: HashFn, t: Tree, u: Tree, n: Name)
    requires n in t.blobs && n in u.blobs && h(t.blobs[n].content) == h(u.blobs[n].content)
    ensures t.blobs[n].content == u.blobs[n].content || Colliding(h, t, u)
  {
    HashesBlob(h, t, n, t.blobs[n].content);
    HashesBlob(h, u, n, u.blobs[n].content);
    CollideHashed(h, t, u, t.blobs[n].content, u.blobs[n].content);
  }

  lemma HashesBlob(h: HashFn, t: Tree, n: Name, x: Bytes)
    requires n in t.blobs && x == t.blobs[n].content
    ensures Hashes(h, t, x)
  {
  }

  lemma CollideHashed(h: HashFn, t: Tree, u: Tree, x: Bytes, y: Bytes)
    requires Hashes(h, t, x) && Hashes(h, u, y) && h(x) == h(y)
    ensures x == y || Colliding(h, t, u)
  {
    if x != y {
      assert Collide(h, x, y);
    }
  }

  lemma CollisionBelow(h: HashFn, t: Tree, u: Tree, n: Name)
    requires n in t.subdirs && n in u.subdirs
    ensures Colliding(h, t.subdirs[n], u.subdirs[n]) ==> Colliding(h, t, u)
  {
    if Colliding(h, t.subdirs[n], u.subdirs[n]) {
      var x, y :| Hashes(h, t.subdirs[n], x) && Hashes(h, u.subdirs[n], y) && Collide(h, x, y);
      assert Hashes(h, t, x) && Hashes(h, u, y);
    }
  }

  lemma NotLive(h: HashFn, t: Tree, n: Name, p: Path)
    requires Merkle(h, t).Hashed? && !Live(h, t, n)
    ensures n in t.subdirs ==> Lookup(t.subdirs[n], p).None?
  {
    if n in t.subdirs {
      GoodChild(h, t, n);
      MerkleStatus(h, t.subdirs[n]);
    }
  }

  // ---- Pruning -----------------------------------------------------------

  ghost predicate HasFile(t: Tree) {
    exists p :: Lookup(t, p).Some?
  }

  /** Drop every directory with no file below it, at every level. */
  ghost function Prune(t: Tree): Tree {
    Tree(t.blobs, map n | n in t.subdirs && HasFile(t.subdirs[n]) :: Prune(t.subdirs[n]))
  }

  lemma {:induction false} PruneKeepsFiles(t: Tree, p: Path)
    ensures Lookup(Prune(t), p) == Lookup(t, p)
    decreases p
  {
    if |p| > 1 && p[0] in t.subdirs {
      PruneKeepsFiles(t.subdirs[p[0]], p[1..]);
    }
  }

  /** Directories without files are no part of a tree's identity, whatever their names. */
  lemma PruneKeepsDigest(h: HashFn, t: Tree)
    ensures Merkle(h, Prune(t)) == Merkle(h, t)
  {
    forall p
      ensures Lookup(Prune(t), p) == Lookup(t, p)
    {
      PruneKeepsFiles(t, p);
    }
    MerkleOfFiles(h, Prune(t), t);
  }
}
