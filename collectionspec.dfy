/** The collection layer of collection.go as functions over the page store: the header codec,
    the recursive find, the descent of Insert and the split with promotion. The Collection
    class (collections.dfy) is proved to behave as these functions say. */
module CollectionSpec {
  import opened Bytes
  import opened Outcomes
  import opened Keys
  import opened NodeFormat
  import opened NodeCodec
  import opened Nodes
  import opened Storage

  /** A node whose parent is EmptyNodeID is the root. */
  const EMPTY_NODE_ID: u64 := 0

  // ---------------------------------------------------------------------------------------
  // The collection header: root (u64), name length (u16), name bytes

  /** The bytes copy(buf[10:], name) lands: as much of the name as fits. */
  function NameFit(b: seq<byte>, name: seq<byte>): nat
    requires 10 <= |b|
  {
    if |name| <= |b| - 10 then |name| else |b| - 10
  }

  /** The buffer after Collection.Serialize(b). */
  function CollectionImage(b: seq<byte>, root: u64, name: seq<byte>): (r: seq<byte>)
    requires 10 <= |b|
    ensures |r| == |b|
  {
    Splice(Splice(Splice(b, 0, LE(root, 8)), 8, LE(|name| % 0x1_0000, 2)), 10, name[..NameFit(b, name)])
  }

  /** The name Collection.Deserialize reads: a zeroed buffer of the stored length, into which
      copy puts as many bytes from offset 10 on as the page has. */
  function DecodedName(buf: seq<byte>): (name: seq<byte>)
    requires 10 <= |buf|
    ensures |name| == ReadAt(buf, 8, 2)
  {
    var length := ReadAt(buf, 8, 2);
    var n := if length <= |buf| - 10 then length else |buf| - 10;
    buf[10..10 + n] + Zeros(length - n)
  }

  /** The header round-trips when the name fits the page and its length fits 16 bits. */
  lemma CollectionRoundTrip(b: seq<byte>, root: u64, name: seq<byte>)
    requires 10 + |name| <= |b| && |name| < 0x1_0000
    ensures ReadU64(CollectionImage(b, root, name), 0) == root
    ensures DecodedName(CollectionImage(b, root, name)) == name
  {
    Pow256Values();
    assert name[..NameFit(b, name)] == name;
    var b1 := Splice(b, 0, LE(root, 8));
    var b2 := Splice(b1, 8, LE(|name|, 2));
    var r := Splice(b2, 10, name);
    assert r == CollectionImage(b, root, name);
    SpliceKeeps(b1, 8, LE(|name|, 2), 0, LE(root, 8));
    SpliceKeeps(b2, 10, name, 0, LE(root, 8));
    SpliceLayout(b1, 8, LE(|name|, 2));
    SpliceKeeps(b2, 10, name, 8, LE(|name|, 2));
    SpliceLayout(b2, 10, name);
    ReadLE(r, 0, root, 8);
    ReadLE(r, 8, |name|, 2);
    BytesAtSlice(r, 10, name);
  }

  // ---------------------------------------------------------------------------------------
  // Reading nodes

  /** Node.Deserialize on a page: Panic where it would index out of range. */
  function LoadBytes(b: seq<byte>): (r: Result<NodeValue>)
    ensures r.Ok? ==> r.value.children == [] || |r.value.children| == |r.value.items| + 1
  {
    if !Decodable(b) then Err(Panic) else Ok(DecodeNode(b))
  }

  /** The page DAL.Serialize writes for a node; only used where Node.Serialize does not panic. */
  function Page(v: NodeValue, pageSize: nat): seq<byte>
  {
    if SerializeSafe(v, pageSize) then NodeImage(Zeros(pageSize), v) else Zeros(pageSize)
  }

  /** A page as the specification sees it: bytes, or the page DAL.Serialize makes of a node on
      pages of the given size, kept as the node so that reading it back needs no decoding. */
  datatype Frame = Raw(bytes: seq<byte>) | Image(node: NodeValue, size: nat)

  /** The bytes a frame stands for. */
  function FrameBytes(f: Frame): seq<byte>
  {
    match f
    case Raw(b) => b
    case Image(v, n) => Page(v, n)
  }

  /** The page file a map of frames stands for. */
  function Disk(pages: map<u64, Frame>): (d: map<u64, seq<byte>>)
    ensures d.Keys == pages.Keys
  {
    map id | id in pages :: FrameBytes(pages[id])
  }

  /** The page file as frames, every page as its bytes. */
  function Lift(pages: map<u64, seq<byte>>): (m: map<u64, Frame>)
    ensures m.Keys == pages.Keys
  {
    map id | id in pages :: Raw(pages[id])
  }

  /** What Node.Deserialize makes of the page of a node that does not fit it. */
  function Misread(v: NodeValue, n: nat): (r: Result<NodeValue>)
    requires !Fits(v, n)
    ensures r.Ok? ==> r.value.children == [] || |r.value.children| == |r.value.items| + 1
  {
    LoadBytes(Page(v, n))
  }

  /** Reading a frame: a node that fits its page reads back as itself (NodeRoundTrip). */
  function LoadFrame(f: Frame): (r: Result<NodeValue>)
    ensures r.Ok? ==> r.value.children == [] || |r.value.children| == |r.value.items| + 1
  {
    match f
    case Raw(b) => LoadBytes(b)
    case Image(v, n) => if Fits(v, n) then Ok(v) else Misread(v, n)
  }

  /** dal.Deserialize(node, id): IO for a page never written, Panic where Node.Deserialize
      would index out of range. */
  function LoadNode(pages: map<u64, Frame>, id: u64): (r: Result<NodeValue>)
    ensures r.Ok? ==> r.value.children == [] || |r.value.children| == |r.value.items| + 1
  {
    if id !in pages then Err(IO) else LoadFrame(pages[id])
  }

  /** Reading a frame reads its bytes. */
  lemma FrameLoads(f: Frame)
    ensures LoadFrame(f) == LoadBytes(FrameBytes(f))
  {
    if f.Image? && Fits(f.node, f.size) {
      NodeRoundTrip(Zeros(f.size), f.node);
    }
  }

  /** Frames read as the page file they stand for. */
  lemma DiskLoads(pages: map<u64, Frame>, id: u64)
    ensures LoadNode(pages, id) == LoadNode(Lift(Disk(pages)), id)
  {
    if id in pages {
      FrameLoads(pages[id]);
    }
  }

  /** Lifting a page file and taking its bytes gives it back. */
  lemma DiskLift(pages: map<u64, seq<byte>>)
    ensures Disk(Lift(pages)) == pages
  {
  }

  /** Writing the frame of a node is writing the page Node.Serialize makes of it. */
  lemma DiskWrite(pages: map<u64, Frame>, id: u64, v: NodeValue, n: nat)
    requires SerializeSafe(v, n)
    ensures Disk(pages[id := Image(v, n)]) == Disk(pages)[id := NodeImage(Zeros(n), v)]
  {
  }

  /** A node read from a page never makes Node.Child index out of range. */
  lemma LoadedChildSafe(pages: map<u64, Frame>, id: u64, key: seq<byte>)
    requires LoadNode(pages, id).Ok? && LoadNode(pages, id).value.children != []
    ensures ChildSafe(LoadNode(pages, id).value, key)
  {
  }

  /** Following Node.Child for key from page id reaches a leaf, or a page that cannot be
      read, within depth levels (so the descent of find and Insert ends). */
  predicate Bottoms(pages: map<u64, Frame>, key: seq<byte>, id: u64, depth: nat)
    decreases depth
  {
    depth > 0 &&
    match LoadNode(pages, id)
    case Err(_) => true
    case Ok(v) => v.children == [] || Bottoms(pages, key, ChildOf(v, key), depth - 1)
  }

  /** Collection.find(key, id): the first node on the descent path whose items hold key. */
  function Search(pages: map<u64, Frame>, key: seq<byte>, id: u64, depth: nat): (r: Result<NodeValue>)
    requires Bottoms(pages, key, id, depth)
    ensures r.Ok? ==> Lookup(r.value.items, key).Some?
    decreases depth
  {
    match LoadNode(pages, id)
    case Err(e) => Err(e)
    case Ok(v) =>
      if Lookup(v.items, key).Some? then Ok(v)
      else if v.children == [] then Err(ItemNotFound)
      else Search(pages, key, ChildOf(v, key), depth - 1)
  }

  /** Collection.Find(key): the item with exactly that key, from the node find returns. */
  function SearchItem(pages: map<u64, Frame>, key: seq<byte>, root: u64, depth: nat): (r: Result<Item>)
    requires Bottoms(pages, key, root, depth)
    ensures r.Ok? ==> r.value.key == key
    ensures r.Err? <==> Search(pages, key, root, depth).Err?
  {
    match Search(pages, key, root, depth)
    case Err(e) => Err(e)
    case Ok(v) =>
      LookupMeaning(v.items, key);
      Ok(Lookup(v.items, key).value)
  }

  /** The descent of Collection.Insert from page id, whose node Insert holds with the given
      parent: the leaf's id and the node Insert holds there, its parent set to the id it
      came from. */
  function Descend(pages: map<u64, Frame>, key: seq<byte>, id: u64, parent: u64, depth: nat): (r: Result<(u64, NodeValue)>)
    requires Bottoms(pages, key, id, depth)
    ensures r.Ok? ==> r.value.1.children == []
    decreases depth
  {
    match LoadNode(pages, id)
    case Err(e) => Err(e)
    case Ok(v) =>
      if v.children == [] then Ok((id, v.(parent := parent)))
      else Descend(pages, key, ChildOf(v, key), id, depth - 1)
  }

  /** The descent ends at a page that reads as a leaf, and Insert holds that leaf with only
      its parent id changed. */
  lemma {:induction false} DescendReadsLeaf(pages: map<u64, Frame>, key: seq<byte>, id: u64, parent: u64, depth: nat)
    requires Bottoms(pages, key, id, depth) && Descend(pages, key, id, parent, depth).Ok?
    ensures var (lid, leaf) := Descend(pages, key, id, parent, depth).value;
      && LoadNode(pages, lid).Ok? && LoadNode(pages, lid).value.children == []
      && leaf == LoadNode(pages, lid).value.(parent := leaf.parent)
    decreases depth
  {
    var v := LoadNode(pages, id).value;
    if v.children != [] {
      DescendReadsLeaf(pages, key, ChildOf(v, key), id, depth - 1);
    }
  }

  /** A page that reads, read through LoadNode. */
  lemma LoadsAs(pages: map<u64, seq<byte>>, id: u64)
    requires id in pages && Decodable(pages[id])
    ensures LoadNode(Lift(pages), id) == Ok(DecodeNode(pages[id]))
  {
  }

  /** One step of find: stop at a node holding key, fail at a leaf, else go to the child. */
  lemma SearchStep(pages: map<u64, Frame>, key: seq<byte>, id: u64, depth: nat)
    requires Bottoms(pages, key, id, depth) && LoadNode(pages, id).Ok?
    ensures var v := LoadNode(pages, id).value;
      && (Lookup(v.items, key).Some? ==> Search(pages, key, id, depth) == Ok(v))
      && (Lookup(v.items, key).None? && v.children == [] ==> Search(pages, key, id, depth) == Err(ItemNotFound))
      && (Lookup(v.items, key).None? && v.children != [] ==>
            && ChildSafe(v, key) && Bottoms(pages, key, ChildOf(v, key), depth - 1)
            && Search(pages, key, id, depth) == Search(pages, key, ChildOf(v, key), depth - 1))
  {
  }

  /** One step of Insert's descent: from an internal node the descent continues at the
      child Node.Child names, with the node's id as the child's parent. */
  lemma DescendStep(pages: map<u64, Frame>, key: seq<byte>, id: u64, parent: u64, depth: nat)
    requires Bottoms(pages, key, id, depth) && LoadNode(pages, id).Ok? && LoadNode(pages, id).value.children != []
    ensures ChildSafe(LoadNode(pages, id).value, key)
    ensures var child := ChildOf(LoadNode(pages, id).value, key);
      && Bottoms(pages, key, child, depth - 1)
      && Descend(pages, key, id, parent, depth) == Descend(pages, key, child, id, depth - 1)
  {
  }

  /** The descent ends at a leaf, which Insert holds with the parent it was given. */
  lemma DescendLeaf(pages: map<u64, Frame>, key: seq<byte>, id: u64, parent: u64, depth: nat)
    requires Bottoms(pages, key, id, depth) && LoadNode(pages, id).Ok? && LoadNode(pages, id).value.children == []
    ensures Descend(pages, key, id, parent, depth) == Ok((id, LoadNode(pages, id).value.(parent := parent)))
  {
  }

  // ---------------------------------------------------------------------------------------
  // Insert and Split on the whole engine state

  /** The pages, the freelist and the collection's root. */
  datatype Store = Store(pages: map<u64, Frame>, free: FreelistValue, root: u64)

  /** Collection.Parent(n), or, for the root, the new empty root Split makes on a fresh page
      (which also becomes the collection's root). */
  function SplitParent(s: Store, n: NodeValue): Result<(u64, NodeValue, Store)>
  {
    if n.parent == EMPTY_NODE_ID then
      var (pid, f) := NextId(s.free);
      Ok((pid, NodeValue(0, [], []), s.(free := f, root := pid)))
    else
      match LoadNode(s.pages, n.parent)
      case Err(e) => Err(e)
      case Ok(pv) => Ok((n.parent, pv, s))
  }

  /** Split's allocations: n's page is released, then a and b take an id each. */
  function SplitIds(f: FreelistValue, nid: u64): (u64, u64, FreelistValue)
  {
    var (aid, f1) := NextId(Released(f, nid));
    var (bid, f2) := NextId(f1);
    (aid, bid, f2)
  }

  /** The parent after Insert(promoted) and AddChild(ptr, aid), AddChild(ptr+1, bid), where
      ptr is the index Insert returns; None where the first AddChild panics. */
  function Adopt(pv: NodeValue, promoted: Item, aid: u64, bid: u64): Option<NodeValue>
  {
    var ptr := ChildPos(pv.items, promoted.key);
    if ptr > |pv.children| then None
    else
      var c1 := WithChild(pv.children, ptr, aid);
      Some(NodeValue(pv.parent, InsertItem(pv.items, promoted), WithChild(c1, ptr + 1, bid)))
  }

  /** Collection.Split(n) on the state s, where n is the node held in memory and nid its id.
      fuel bounds the recursion into the parent. */
  function SplitSpec(s: Store, nid: u64, n: NodeValue, pageSize: nat, fuel: nat): Result<Store>
    decreases fuel, 2
  {
    if fuel == 0 then Err(Panic)
    else
      match SplitParent(s, n)
      case Err(e) => Err(e)
      case Ok((pid, pv, s1)) =>
        if |n.items| == 0 then Err(Panic)
        else PromoteSpec(s1, nid, n, pid, pv, pageSize, fuel)
  }

  /** Split once the parent (pid, pv) is known: the median goes into the parent, n's page is
      released, a and b take the next two ids and are adopted at the median's index. */
  function PromoteSpec(s: Store, nid: u64, n: NodeValue, pid: u64, pv: NodeValue, pageSize: nat, fuel: nat): Result<Store>
    requires |n.items| > 0 && fuel > 0
    decreases fuel, 1
  {
    var (aid, bid, f) := SplitIds(s.free, nid);
    match Adopt(pv, Promoted(n), aid, bid)
    case None => Err(Panic)
    case Some(p) =>
      PersistSpec(s.(free := f), pid, p, aid, SplitLeft(n).(parent := pid), bid, SplitRight(n).(parent := pid), pageSize, fuel)
  }

  /** PromoteSpec once the ids are taken and the halves adopted. */
  lemma PromoteUnfold(s: Store, nid: u64, n: NodeValue, pid: u64, pv: NodeValue, pageSize: nat, fuel: nat,
                      aid: u64, bid: u64, f: FreelistValue)
    requires |n.items| > 0 && fuel > 0
    requires (aid, bid, f) == SplitIds(s.free, nid)
    ensures Adopt(pv, Promoted(n), aid, bid).None? ==> PromoteSpec(s, nid, n, pid, pv, pageSize, fuel) == Err(Panic)
    ensures Adopt(pv, Promoted(n), aid, bid).Some? ==>
      PromoteSpec(s, nid, n, pid, pv, pageSize, fuel)
        == PersistSpec(s.(free := f), pid, Adopt(pv, Promoted(n), aid, bid).value, aid, SplitLeft(n).(parent := pid),
                       bid, SplitRight(n).(parent := pid), pageSize, fuel)
  {
  }

  /** The end of Split: parent, a and b are written under their ids, and an overpopulated
      parent is split in turn. */
  function PersistSpec(s: Store, pid: u64, p: NodeValue, aid: u64, a: NodeValue, bid: u64, b: NodeValue,
                       pageSize: nat, fuel: nat): Result<Store>
    requires fuel > 0
    decreases fuel, 0
  {
    if !SerializeSafe(p, pageSize) || !SerializeSafe(a, pageSize) || !SerializeSafe(b, pageSize) then Err(Panic)
    else
      var s2 := Written(s, pid, p, aid, a, bid, b, pageSize);
      if Overfull(p.items, pageSize) then SplitSpec(s2, pid, p, pageSize, fuel - 1) else Ok(s2)
  }

  /** The store after Split's three writes, parent, a and b in that order. */
  function Written(s: Store, pid: u64, p: NodeValue, aid: u64, a: NodeValue, bid: u64, b: NodeValue, pageSize: nat): Store
  {
    s.(pages := s.pages[pid := Image(p, pageSize)][aid := Image(a, pageSize)][bid := Image(b, pageSize)])
  }

  /** PersistSpec once the three pages are written. */
  lemma PersistUnfold(s: Store, pid: u64, p: NodeValue, aid: u64, a: NodeValue, bid: u64, b: NodeValue,
                      pageSize: nat, fuel: nat, s2: Store)
    requires fuel > 0
    requires s2 == Written(s, pid, p, aid, a, bid, b, pageSize)
    ensures !(SerializeSafe(p, pageSize) && SerializeSafe(a, pageSize) && SerializeSafe(b, pageSize)) ==>
      PersistSpec(s, pid, p, aid, a, bid, b, pageSize, fuel) == Err(Panic)
    ensures SerializeSafe(p, pageSize) && SerializeSafe(a, pageSize) && SerializeSafe(b, pageSize) ==>
      PersistSpec(s, pid, p, aid, a, bid, b, pageSize, fuel)
        == if Overfull(p.items, pageSize) then SplitSpec(s2, pid, p, pageSize, fuel - 1) else Ok(s2)
  {
  }

  /** The leaf Insert's descent reaches from the root, as Insert holds it. */
  function LeafFor(s: Store, key: seq<byte>, depth: nat): (r: Result<(u64, NodeValue)>)
    requires Bottoms(s.pages, key, s.root, depth)
    ensures r.Ok? ==> r.value.1.children == []
  {
    match LoadNode(s.pages, s.root)
    case Err(e) => Err(e)
    case Ok(rv) => Descend(s.pages, key, s.root, rv.parent, depth)
  }

  /** The leaf Insert(key, value) writes, before the fill test: the leaf it descends to with
      the item inserted in order. */
  function InsertedLeaf(s: Store, key: seq<byte>, value: seq<byte>, depth: nat): (r: Result<(u64, NodeValue)>)
    requires Bottoms(s.pages, key, s.root, depth)
    ensures r.Ok? ==> r.value.1.children == [] && Lookup(r.value.1.items, key).Some?
  {
    match LeafFor(s, key, depth)
    case Err(e) => Err(e)
    case Ok((lid, lv)) =>
      var it := Item(key, value);
      InsertItemShape(lv.items, it);
      assert InsertItem(lv.items, it)[ChildPos(lv.items, key)].key == key;
      LookupMeaning(InsertItem(lv.items, it), key);
      Ok((lid, lv.(items := InsertItem(lv.items, it))))
  }

  /** Collection.Insert(key, value): the leaf is written back in place, or split when it has
      become overpopulated. The recursion bound of the split is one more than the number of
      pages. */
  function InsertSpec(s: Store, key: seq<byte>, value: seq<byte>, pageSize: nat, depth: nat): Result<Store>
    requires Bottoms(s.pages, key, s.root, depth)
  {
    match InsertedLeaf(s, key, value, depth)
    case Err(e) => Err(e)
    case Ok((lid, leaf)) => PlaceSpec(s, lid, leaf, pageSize)
  }

  /** The end of Insert: the leaf is split when overpopulated, else written back under its id. */
  function PlaceSpec(s: Store, lid: u64, leaf: NodeValue, pageSize: nat): Result<Store>
  {
    if Overfull(leaf.items, pageSize) then SplitSpec(s, lid, leaf, pageSize, |s.pages| + 1)
    else WriteBackSpec(s, lid, leaf, pageSize)
  }

  /** dal.Serialize(n) writing n under its own id; Panic where Node.Serialize would index past
      the page. */
  function WriteBackSpec(s: Store, id: u64, v: NodeValue, pageSize: nat): (r: Result<Store>)
    ensures r.Ok? <==> SerializeSafe(v, pageSize)
    ensures r.Ok? ==> r.value.free == s.free && r.value.root == s.root && LoadNode(r.value.pages, id) == LoadFrame(Image(v, pageSize))
    ensures r.Ok? ==> forall c :: c != id ==> LoadNode(r.value.pages, c) == LoadNode(s.pages, c)
  {
    if !SerializeSafe(v, pageSize) then Err(Panic)
    else Ok(s.(pages := s.pages[id := Image(v, pageSize)]))
  }
}
