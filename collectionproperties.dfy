/** What find, Insert and Split do to the tree, proved on the functions of CollectionSpec. */
module CollectionProperties {
  import opened Bytes
  import opened Outcomes
  import opened Keys
  import opened NodeFormat
  import opened NodeCodec
  import opened Nodes
  import opened Storage
  import opened CollectionSpec

  /** find on the page file a map of frames stands for goes exactly as on the frames: the
      descent ends at the same depth and finds the same node. */
  lemma {:induction false} SearchOnDisk(pages: map<u64, Frame>, key: seq<byte>, id: u64, depth: nat)
    ensures Bottoms(pages, key, id, depth) == Bottoms(Lift(Disk(pages)), key, id, depth)
    ensures Bottoms(pages, key, id, depth) ==> Search(pages, key, id, depth) == Search(Lift(Disk(pages)), key, id, depth)
    decreases depth
  {
    DiskLoads(pages, id);
    if depth > 0 && LoadNode(pages, id).Ok? && LoadNode(pages, id).value.children != [] {
      SearchOnDisk(pages, key, ChildOf(LoadNode(pages, id).value, key), depth - 1);
    }
  }

  // ---------------------------------------------------------------------------------------
  // find and Insert follow the same path

  /** When find misses, Insert's descent reaches the leaf where find gave up, and that leaf
      has no item with the key. */
  lemma {:induction false} MissReachesLeaf(pages: map<u64, Frame>, key: seq<byte>, id: u64, parent: u64, depth: nat)
    requires Bottoms(pages, key, id, depth)
    requires Search(pages, key, id, depth) == Err(ItemNotFound)
    ensures Descend(pages, key, id, parent, depth).Ok?
    ensures Lookup(Descend(pages, key, id, parent, depth).value.1.items, key).None?
    decreases depth
  {
    var v := LoadNode(pages, id).value;
    if v.children != [] {
      MissReachesLeaf(pages, key, ChildOf(v, key), id, depth - 1);
    }
  }

  /** Rewriting the leaf at the end of a missed search with a leaf that holds the key makes
      the same search find that leaf: the nodes above it are on other pages. */
  lemma {:induction false} FindAfterLeafWrite(pages: map<u64, Frame>, key: seq<byte>, id: u64, parent: u64, depth: nat,
                                              page: Frame, w: NodeValue)
    requires Bottoms(pages, key, id, depth)
    requires Search(pages, key, id, depth) == Err(ItemNotFound)
    requires Descend(pages, key, id, parent, depth).Ok?
    requires var lid := Descend(pages, key, id, parent, depth).value.0;
      LoadNode(pages[lid := page], lid) == Ok(w) && w.children == [] && Lookup(w.items, key).Some?
    ensures var lid := Descend(pages, key, id, parent, depth).value.0;
      Bottoms(pages[lid := page], key, id, depth) && Search(pages[lid := page], key, id, depth) == Ok(w)
    decreases depth
  {
    var lid := Descend(pages, key, id, parent, depth).value.0;
    var v := LoadNode(pages, id).value;
    if v.children != [] {
      DescendReadsLeaf(pages, key, id, parent, depth);
      assert id != lid;
      assert LoadNode(pages[lid := page], id) == LoadNode(pages, id);
      var c := ChildOf(v, key);
      assert Descend(pages, key, id, parent, depth) == Descend(pages, key, c, id, depth - 1);
      FindAfterLeafWrite(pages, key, c, id, depth - 1, page, w);
    }
  }

  /** Insert into a leaf that stays below the fill limit and serializes safely writes the
      leaf, one item longer, back under its own id; the free list and the root are unchanged. */
  lemma InsertInPlace(s: Store, key: seq<byte>, value: seq<byte>, pageSize: nat, depth: nat, lid: u64, lv: NodeValue)
    requires Bottoms(s.pages, key, s.root, depth)
    requires LeafFor(s, key, depth) == Ok((lid, lv))
    requires var leaf := lv.(items := InsertItem(lv.items, Item(key, value)));
      !Overfull(leaf.items, pageSize) && SerializeSafe(leaf, pageSize)
    ensures var leaf := lv.(items := InsertItem(lv.items, Item(key, value)));
      && |leaf.items| == |lv.items| + 1 && leaf.children == []
      && InsertSpec(s, key, value, pageSize, depth) == Ok(s.(pages := s.pages[lid := Image(leaf, pageSize)]))
  {
    InsertItemShape(lv.items, Item(key, value));
  }

  /** Inserting a key that find does not see, into a leaf that stays below the fill limit and
      fits its page, makes Find(key) on the page file Insert leaves return the new item. */
  lemma InsertThenFind(s: Store, key: seq<byte>, value: seq<byte>, pageSize: nat, depth: nat, lid: u64, lv: NodeValue)
    requires Bottoms(s.pages, key, s.root, depth)
    requires Search(s.pages, key, s.root, depth) == Err(ItemNotFound)
    requires LeafFor(s, key, depth) == Ok((lid, lv))
    requires var leaf := lv.(items := InsertItem(lv.items, Item(key, value)));
      !Overfull(leaf.items, pageSize) && Fits(leaf, pageSize)
    ensures InsertSpec(s, key, value, pageSize, depth).Ok?
    ensures var t := InsertSpec(s, key, value, pageSize, depth).value;
      && Bottoms(Lift(Disk(t.pages)), key, t.root, depth)
      && SearchItem(Lift(Disk(t.pages)), key, t.root, depth) == Ok(Item(key, value))
  {
    var it := Item(key, value);
    var leaf := lv.(items := InsertItem(lv.items, it));
    InsertInPlace(s, key, value, pageSize, depth, lid, lv);
    var rv := LoadNode(s.pages, s.root).value;
    MissReachesLeaf(s.pages, key, s.root, rv.parent, depth);
    LookupMeaning(lv.items, key);
    InsertItemLookup(lv.items, it);
    assert LoadNode(s.pages[lid := Image(leaf, pageSize)], lid) == Ok(leaf);
    FindAfterLeafWrite(s.pages, key, s.root, rv.parent, depth, Image(leaf, pageSize), leaf);
    SearchOnDisk(s.pages[lid := Image(leaf, pageSize)], key, s.root, depth);
  }

  /** Rewriting a leaf page with another leaf that answers Lookup(k) the same way changes
      nothing for find(k) from any page: the descent reads the same nodes above the leaf and
      stops at the leaf in both. */
  lemma {:induction false} LeafRewriteKeeps(pages: map<u64, Frame>, lid: u64, page: Frame, k: seq<byte>, id: u64, depth: nat)
    requires LoadNode(pages, lid).Ok? && LoadNode(pages, lid).value.children == []
    requires LoadNode(pages[lid := page], lid).Ok? && LoadNode(pages[lid := page], lid).value.children == []
    requires Lookup(LoadNode(pages[lid := page], lid).value.items, k) == Lookup(LoadNode(pages, lid).value.items, k)
    ensures Bottoms(pages[lid := page], k, id, depth) == Bottoms(pages, k, id, depth)
    ensures Bottoms(pages, k, id, depth) ==> SearchItem(pages[lid := page], k, id, depth) == SearchItem(pages, k, id, depth)
    decreases depth
  {
    var q := pages[lid := page];
    if depth > 0 && id != lid {
      assert LoadNode(q, id) == LoadNode(pages, id);
      if LoadNode(pages, id).Ok? {
        var v := LoadNode(pages, id).value;
        if v.children != [] {
          LeafRewriteKeeps(pages, lid, page, k, ChildOf(v, k), depth - 1);
        }
      }
    }
  }

  /** Inserting key into a leaf that stays below the fill limit and fits its page leaves
      Find of every other key on the page file as it was. */
  lemma InsertKeepsOthers(s: Store, key: seq<byte>, value: seq<byte>, pageSize: nat, depth: nat, lid: u64, lv: NodeValue,
                          k: seq<byte>, d: nat)
    requires Bottoms(s.pages, key, s.root, depth)
    requires LeafFor(s, key, depth) == Ok((lid, lv))
    requires var leaf := lv.(items := InsertItem(lv.items, Item(key, value)));
      !Overfull(leaf.items, pageSize) && Fits(leaf, pageSize)
    requires k != key
    ensures InsertSpec(s, key, value, pageSize, depth).Ok?
    ensures var t := InsertSpec(s, key, value, pageSize, depth).value;
      && Bottoms(Lift(Disk(t.pages)), k, t.root, d) == Bottoms(Lift(Disk(s.pages)), k, s.root, d)
      && (Bottoms(Lift(Disk(s.pages)), k, s.root, d) ==>
            SearchItem(Lift(Disk(t.pages)), k, t.root, d) == SearchItem(Lift(Disk(s.pages)), k, s.root, d))
  {
    var it := Item(key, value);
    var leaf := lv.(items := InsertItem(lv.items, it));
    InsertInPlace(s, key, value, pageSize, depth, lid, lv);
    var rv := LoadNode(s.pages, s.root).value;
    DescendReadsLeaf(s.pages, key, s.root, rv.parent, depth);
    InsertItemLookupOther(lv.items, it, k);
    var q := s.pages[lid := Image(leaf, pageSize)];
    assert LoadNode(q, lid) == Ok(leaf);
    LeafRewriteKeeps(s.pages, lid, Image(leaf, pageSize), k, s.root, d);
    SearchOnDisk(s.pages, k, s.root, d);
    SearchOnDisk(q, k, s.root, d);
  }

  // ---------------------------------------------------------------------------------------
  // Split

  /** n's page is released just before a and b are allocated, so a takes n's page back and b
      takes the next page above the high-water mark. */
  lemma SplitReusesPage(f: FreelistValue, nid: u64)
    requires f.highWater + 1 < U64_MODULUS
    ensures SplitIds(f, nid) == (nid, f.highWater + 1, FreelistValue(f.highWater + 1, []))
  {
  }

  /** A root's parent is a fresh empty node on a new page, which becomes the root. */
  lemma RootParent(s: Store, n: NodeValue)
    requires n.parent == EMPTY_NODE_ID
    ensures SplitParent(s, n) == Ok((NextId(s.free).0, NodeValue(0, [], []), s.(free := NextId(s.free).1, root := NextId(s.free).0)))
  {
  }

  /** Adopting into the new empty root gives it the median as its only item and a, b as its
      two children. */
  lemma AdoptIntoEmptyRoot(promoted: Item, aid: u64, bid: u64)
    ensures Adopt(NodeValue(0, [], []), promoted, aid, bid) == Some(NodeValue(0, [promoted], [aid, bid]))
  {
    assert ChildPos([], promoted.key) == 0;
    assert InsertItem([], promoted) == [promoted];
    assert WithChild(WithChild([], 0, aid), 1, bid) == [aid, bid];
  }

  /** When the split node was its parent's last child, a takes its slot and b is appended:
      the parent keeps one more child than items. */
  lemma AdoptAtEnd(pv: NodeValue, promoted: Item, aid: u64, bid: u64)
    requires |pv.children| == |pv.items| + 1 && ChildPos(pv.items, promoted.key) == |pv.items|
    ensures Adopt(pv, promoted, aid, bid) == Some(NodeValue(pv.parent, pv.items + [promoted], pv.children[..|pv.items|] + [aid, bid]))
    ensures |Adopt(pv, promoted, aid, bid).value.children| == |Adopt(pv, promoted, aid, bid).value.items| + 1
  {
    assert pv.items[..|pv.items|] + [promoted] + pv.items[|pv.items|..] == pv.items + [promoted];
    var c1 := WithChild(pv.children, |pv.items|, aid);
    assert c1 == pv.children[..|pv.items|] + [aid];
    assert WithChild(c1, |pv.items| + 1, bid) == pv.children[..|pv.items|] + [aid, bid];
  }

  /** Anywhere else AddChild(ptr+1, b) overwrites the split node's right neighbour instead of
      shifting it: the parent is left with as many children as items, and the neighbour's id
      is gone from the slot where it was. */
  lemma AdoptInside(pv: NodeValue, promoted: Item, aid: u64, bid: u64)
    requires |pv.children| == |pv.items| + 1
    requires ChildPos(pv.items, promoted.key) < |pv.items|
    ensures var ptr := ChildPos(pv.items, promoted.key);
      && Adopt(pv, promoted, aid, bid) == Some(NodeValue(pv.parent, InsertItem(pv.items, promoted), pv.children[ptr := aid][ptr + 1 := bid]))
      && |Adopt(pv, promoted, aid, bid).value.children| == |Adopt(pv, promoted, aid, bid).value.items|
      && (pv.children[ptr + 1] != bid ==> Adopt(pv, promoted, aid, bid).value.children[ptr + 1] != pv.children[ptr + 1])
  {
    InsertItemShape(pv.items, promoted);
  }

  /** The free list as it stands while page nid is live: nothing released is above the
      high-water mark or is nid, and two more pages can be numbered without wrapping. */
  predicate AllocationSound(f: FreelistValue, nid: u64)
  {
    && nid <= f.highWater
    && f.highWater + 2 < U64_MODULUS
    && forall x :: x in f.released ==> x <= f.highWater && x != nid
  }

  /** The new root of a root split. */
  function NewRoot(n: NodeValue, aid: u64, bid: u64): NodeValue
    requires |n.items| > 0
  {
    NodeValue(0, [Promoted(n)], [aid, bid])
  }

  /** The pages a root split leaves behind: the new root at pid, the halves at aid and bid. */
  function RootSplitPages(pages: map<u64, Frame>, pid: u64, p: NodeValue, aid: u64, a: NodeValue, bid: u64, b: NodeValue,
                          pageSize: nat): map<u64, Frame>
  {
    pages[pid := Image(p, pageSize)][aid := Image(a, pageSize)][bid := Image(b, pageSize)]
  }

  /** The ids of a root split are three different pages: the new root's, n's own (taken back
      by a) and a new one for b. */
  lemma RootSplitIds(f: FreelistValue, nid: u64)
    requires AllocationSound(f, nid)
    ensures var (pid, f1) := NextId(f); var (aid, bid, f2) := SplitIds(f1, nid);
      && aid == nid && pid != nid && bid != nid && bid != pid
      && f2 == FreelistValue(bid, [])
  {
    var (pid, f1) := NextId(f);
    SplitReusesPage(f1, nid);
    if f.released != [] {
      assert pid in f.released;
    }
  }

  /** The state after a root split that needs no further split. */
  lemma RootSplitState(s: Store, nid: u64, n: NodeValue, pageSize: nat, fuel: nat, pid: u64, bid: u64)
    requires fuel > 0 && n.parent == EMPTY_NODE_ID && |n.items| > 0
    requires AllocationSound(s.free, nid)
    requires pid == NextId(s.free).0 && bid == SplitIds(NextId(s.free).1, nid).1
    requires && SerializeSafe(NewRoot(n, nid, bid), pageSize)
             && SerializeSafe(SplitLeft(n).(parent := pid), pageSize)
             && SerializeSafe(SplitRight(n).(parent := pid), pageSize)
             && !Overfull([Promoted(n)], pageSize)
    ensures SplitSpec(s, nid, n, pageSize, fuel)
         == Ok(Store(RootSplitPages(s.pages, pid, NewRoot(n, nid, bid), nid, SplitLeft(n).(parent := pid),
                                    bid, SplitRight(n).(parent := pid), pageSize),
                     FreelistValue(bid, []), pid))
  {
    var f1 := NextId(s.free).1;
    RootSplitIds(s.free, nid);
    RootParent(s, n);
    var s1 := s.(free := f1, root := pid);
    AdoptIntoEmptyRoot(Promoted(n), nid, bid);
    var p := NewRoot(n, nid, bid);
    var a := SplitLeft(n).(parent := pid);
    var b := SplitRight(n).(parent := pid);
    var s2 := Store(RootSplitPages(s.pages, pid, p, nid, a, bid, b, pageSize), FreelistValue(bid, []), pid);
    assert PersistSpec(s1.(free := FreelistValue(bid, [])), pid, p, nid, a, bid, b, pageSize, fuel) == Ok(s2);
    assert PromoteSpec(s1, nid, n, pid, NodeValue(0, [], []), pageSize, fuel) == Ok(s2);
  }

  /** The three pages of a root split, once in the page file, read back as written; every
      other page is untouched. */
  lemma RootSplitReads(pages: map<u64, Frame>, pid: u64, p: NodeValue, aid: u64, a: NodeValue, bid: u64, b: NodeValue, pageSize: nat)
    requires pid != aid && pid != bid && aid != bid
    requires Fits(p, pageSize) && Fits(a, pageSize) && Fits(b, pageSize)
    ensures var t := Lift(Disk(RootSplitPages(pages, pid, p, aid, a, bid, b, pageSize)));
      && LoadNode(t, pid) == Ok(p) && LoadNode(t, aid) == Ok(a) && LoadNode(t, bid) == Ok(b)
    ensures var t := RootSplitPages(pages, pid, p, aid, a, bid, b, pageSize);
      forall c :: c in pages && c != pid && c != aid && c != bid ==> c in t && t[c] == pages[c]
  {
    var t := RootSplitPages(pages, pid, p, aid, a, bid, b, pageSize);
    ImageOnDisk(t, pid);
    ImageOnDisk(t, aid);
    ImageOnDisk(t, bid);
  }

  /** A page kept as a node that fits reads back from the page file as that node. */
  lemma ImageOnDisk(pages: map<u64, Frame>, id: u64)
    requires id in pages && pages[id].Image? && Fits(pages[id].node, pages[id].size)
    ensures LoadNode(Lift(Disk(pages)), id) == Ok(pages[id].node)
  {
    DiskLoads(pages, id);
  }

  /** Splitting the root: the collection's root becomes a fresh page holding only the median
      with children a and b; a is written back on n's own page and b on the next new page,
      both naming the new root as parent; the free list ends empty; no other page changes. */
  lemma RootSplit(s: Store, nid: u64, n: NodeValue, pageSize: nat, fuel: nat, pid: u64, bid: u64)
    requires fuel > 0 && n.parent == EMPTY_NODE_ID && |n.items| > 0
    requires AllocationSound(s.free, nid)
    requires pid == NextId(s.free).0 && bid == SplitIds(NextId(s.free).1, nid).1
    requires && Fits(NewRoot(n, nid, bid), pageSize)
             && Fits(SplitLeft(n).(parent := pid), pageSize)
             && Fits(SplitRight(n).(parent := pid), pageSize)
             && !Overfull([Promoted(n)], pageSize)
    ensures SplitSpec(s, nid, n, pageSize, fuel).Ok?
    ensures var t := SplitSpec(s, nid, n, pageSize, fuel).value;
      && t.root == pid && pid != nid && bid != nid && bid != pid
      && LoadNode(Lift(Disk(t.pages)), pid) == Ok(NewRoot(n, nid, bid))
      && LoadNode(Lift(Disk(t.pages)), nid) == Ok(SplitLeft(n).(parent := pid))
      && LoadNode(Lift(Disk(t.pages)), bid) == Ok(SplitRight(n).(parent := pid))
      && t.free == FreelistValue(bid, [])
      && (forall c :: c in s.pages && c != pid && c != nid && c != bid ==> c in t.pages && t.pages[c] == s.pages[c])
  {
    RootSplitIds(s.free, nid);
    RootSplitState(s, nid, n, pageSize, fuel, pid, bid);
    RootSplitReads(s.pages, pid, NewRoot(n, nid, bid), nid, SplitLeft(n).(parent := pid), bid, SplitRight(n).(parent := pid), pageSize);
  }

  /** After a root split the children of b still name n's page as their parent, which is now
      a's page: Split never rewrites them. */
  lemma StaleParentAfterRootSplit(s: Store, nid: u64, n: NodeValue, pageSize: nat, fuel: nat, pid: u64, bid: u64, c: u64)
    requires fuel > 0 && n.parent == EMPTY_NODE_ID && |n.items| > 0
    requires AllocationSound(s.free, nid)
    requires pid == NextId(s.free).0 && bid == SplitIds(NextId(s.free).1, nid).1
    requires && Fits(NewRoot(n, nid, bid), pageSize)
             && Fits(SplitLeft(n).(parent := pid), pageSize)
             && Fits(SplitRight(n).(parent := pid), pageSize)
             && !Overfull([Promoted(n)], pageSize)
    requires c in SplitRight(n).children && c != pid && c != nid && c != bid
    requires LoadNode(s.pages, c).Ok? && LoadNode(s.pages, c).value.parent == nid
    ensures SplitSpec(s, nid, n, pageSize, fuel).Ok?
    ensures var t := SplitSpec(s, nid, n, pageSize, fuel).value;
      LoadNode(t.pages, c) == LoadNode(s.pages, c) && LoadNode(t.pages, c).value.parent != bid
  {
    RootSplit(s, nid, n, pageSize, fuel, pid, bid);
  }
}
