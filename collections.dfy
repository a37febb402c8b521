/** The Collection of collection.go: a named B-tree whose nodes live on the pages of a DAL.
    Each method is proved to do what the functions of CollectionSpec say. */
module Collections {
  import opened Bytes
  import opened Outcomes
  import opened Keys
  import opened NodeFormat
  import opened Nodes
  import opened Cursor
  import opened Storage
  import opened CollectionSpec

  class Collection {
    var id: u64
    var name: seq<byte>
    var root: u64
    const dal: DAL

    constructor (id: u64, name: seq<byte>, root: u64, dal: DAL)
      ensures this.id == id && this.name == name && this.root == root && this.dal == dal
    {
      this.id := id;
      this.name := name;
      this.root := root;
      this.dal := dal;
    }

    ghost predicate Valid()
      reads this, dal, dal.ds
    {
      dal.Valid()
    }

    /** The engine state the collection works on, every page as its bytes. */
    ghost function Snapshot(): Store
      reads this, dal, dal.ds, dal.freelist
    {
      Store(Lift(dal.ds.pages), dal.freelist.Value(), root)
    }

    /** view stands for the engine state: its frames are the page file's bytes, its free list
        and root are the collection's. */
    ghost predicate Holds(view: Store)
      reads this, dal, dal.ds, dal.freelist
    {
      Disk(view.pages) == dal.ds.pages && view.free == dal.freelist.Value() && view.root == root
    }

    /** A method's result and final state are what the specification gives: the same outcome,
        the same error, and on success the state spec holds. */
    ghost predicate Realizes(r: Result<()>, spec: Result<Store>)
      reads this, dal, dal.ds, dal.freelist
    {
      && (r.Ok? <==> spec.Ok?)
      && (r.Err? ==> r.error == spec.error)
      && (r.Ok? ==> Holds(spec.value))
    }

    /** Writes root, the name length and the name through a forward cursor. */
    method Serialize(buf: array<byte>)
      requires 10 <= buf.Length
      modifies buf
      ensures buf[..] == CollectionImage(old(buf[..]), root, name)
    {
      var head := new Serializer(buf, 0, FORWARDS);
      head.PutUint64(root);
      head.PutUint16(|name| % 0x1_0000);
      head.Put(name);
    }

    /** Reads root and name back; the name is as long as the stored length says. */
    method Deserialize(buf: seq<byte>)
      requires 10 <= |buf|
      modifies this
      ensures root == ReadU64(buf, 0) && name == DecodedName(buf)
      ensures id == old(id)
    {
      root := ReadU64(buf, 0);
      var length := ReadAt(buf, 8, 2);
      var bytes := new byte[length](_ => 0);
      var n := CopyInto(bytes, 0, buf[10..]);
      name := bytes[..];
      assert name == buf[10..10 + n] + Zeros(length - n);
    }

    /** find(key, id): the first node on the descent whose items hold key. */
    method FindNode(key: seq<byte>, id: u64, ghost depth: nat) returns (r: Result<Node>)
      requires Valid() && Bottoms(Lift(dal.ds.pages), key, id, depth)
      ensures r.Ok? <==> Search(Lift(dal.ds.pages), key, id, depth).Ok?
      ensures r.Err? ==> r.error == Search(Lift(dal.ds.pages), key, id, depth).error
      ensures r.Ok? ==> r.value.Value() == Search(Lift(dal.ds.pages), key, id, depth).value
      decreases depth
    {
      var node := new Node(0, 0, [], []);
      var e := dal.DeserializeNode(node, id);
      if e.Err? {
        return Err(e.error);
      }
      LoadsAs(dal.ds.pages, id);
      SearchStep(Lift(dal.ds.pages), key, id, depth);
      var found := node.Find(key);
      if found.Some? {
        return Ok(node);
      }
      if node.Leaf() {
        return Err(ItemNotFound);
      }
      var child := node.Child(key);
      r := FindNode(key, child, depth - 1);
    }

    /** Find(key): the item with exactly that key. */
    method Find(key: seq<byte>, ghost depth: nat) returns (r: Result<Item>)
      requires Valid() && Bottoms(Lift(dal.ds.pages), key, root, depth)
      ensures r == SearchItem(Lift(dal.ds.pages), key, root, depth)
      ensures r.Ok? ==> r.value.key == key
    {
      var n := FindNode(key, root, depth);
      if n.Err? {
        return Err(n.error);
      }
      var item := n.value.Find(key);
      return Ok(item.value);
    }

    /** Parent(n): NoParentFound for the root, otherwise the node stored at n.parent. */
    method Parent(n: Node) returns (r: Result<Node>)
      requires Valid()
      ensures n.parent == EMPTY_NODE_ID ==> r == Err(NoParentFound)
      ensures n.parent != EMPTY_NODE_ID ==>
        var l := LoadNode(Lift(dal.ds.pages), n.parent);
        && (r.Ok? <==> l.Ok?)
        && (r.Err? ==> r.error == l.error)
        && (r.Ok? ==> fresh(r.value) && r.value.id == n.parent && r.value.Value() == l.value)
    {
      if n.parent == EMPTY_NODE_ID {
        return Err(NoParentFound);
      }
      var parent := new Node(0, 0, [], []);
      var e := dal.DeserializeNode(parent, n.parent);
      if e.Err? {
        return Err(e.error);
      }
      LoadsAs(dal.ds.pages, n.parent);
      parent.id := n.parent;
      return Ok(parent);
    }

    /** The descent of Insert: from the root, while the node has children, read the child
        Node.Child names into the same node and record where it came from. */
    method DescendToLeaf(key: seq<byte>, ghost depth: nat) returns (r: Result<Node>)
      requires Valid() && Bottoms(Snapshot().pages, key, root, depth)
      ensures r.Ok? <==> LeafFor(Snapshot(), key, depth).Ok?
      ensures r.Err? ==> r.error == LeafFor(Snapshot(), key, depth).error
      ensures r.Ok? ==> fresh(r.value) && (r.value.id, r.value.Value()) == LeafFor(Snapshot(), key, depth).value
    {
      var node := new Node(root, 0, [], []);
      var e := dal.DeserializeNode(node, root);
      if e.Err? {
        return Err(e.error);
      }
      ghost var pages := Snapshot().pages;
      LoadsAs(dal.ds.pages, root);
      ghost var target := LeafFor(Snapshot(), key, depth);
      ghost var d := depth;
      while node.Parent()
        invariant fresh(node)
        invariant Bottoms(pages, key, node.id, d) && LoadNode(pages, node.id).Ok?
        invariant node.Value() == LoadNode(pages, node.id).value.(parent := node.parent)
        invariant Descend(pages, key, node.id, node.parent, d) == target
        decreases d
      {
        DescendStep(pages, key, node.id, node.parent, d);
        e := ReadChild(node, key, pages);
        if e.Err? {
          return Err(e.error);
        }
        d := d - 1;
      }
      DescendLeaf(pages, key, node.id, node.parent, d);
      return Ok(node);
    }

    /** One step of the descent: node takes the value of the child Node.Child names, that
        child's id, and its own former id as parent. */
    method ReadChild(node: Node, key: seq<byte>, ghost pages: map<u64, Frame>) returns (e: Result<()>)
      requires Valid() && Lift(dal.ds.pages) == pages
      requires LoadNode(pages, node.id).Ok? && node.Value() == LoadNode(pages, node.id).value.(parent := node.parent)
      requires node.children != []
      modifies node
      ensures var c := ChildOf(old(node.Value()), key);
        && (e.Ok? <==> LoadNode(pages, c).Ok?)
        && (e.Err? ==> e.error == LoadNode(pages, c).error)
        && (e.Ok? ==> node.id == c && node.parent == old(node.id)
                      && node.Value() == LoadNode(pages, c).value.(parent := node.parent))
    {
      var parent := node.id;
      LoadedChildSafe(pages, node.id, key);
      var child := node.Child(key);
      e := dal.DeserializeNode(node, child);
      if e.Err? {
        return;
      }
      LoadsAs(dal.ds.pages, child);
      node.id := child;
      node.parent := parent;
    }

    /** Insert(key, value): descend to a leaf, insert in order, then write the leaf back or split it. */
    method Insert(key: seq<byte>, value: seq<byte>, ghost depth: nat) returns (r: Result<()>)
      requires Valid() && Bottoms(Snapshot().pages, key, root, depth)
      modifies this, dal.ds, dal.freelist
      ensures Valid()
      ensures name == old(name) && id == old(id)
      ensures Realizes(r, InsertSpec(old(Snapshot()), key, value, dal.pageSize, depth))
    {
      ghost var s := Snapshot();
      var item := Item(key, value);
      var leaf := DescendToLeaf(key, depth);
      if leaf.Err? {
        return Err(leaf.error);
      }
      var node := leaf.value;
      var _ := node.Insert(item);
      assert InsertedLeaf(s, key, value, depth) == Ok((node.id, node.Value()));
      DiskLift(dal.ds.pages);
      r := Place(node, s, PlaceSpec(s, node.id, node.Value(), dal.pageSize));
    }

    /** The rest of Insert once the item is in the leaf: split it when overpopulated, else
        write it back. */
    method Place(node: Node, ghost view: Store, ghost spec: Result<Store>) returns (r: Result<()>)
      requires Valid() && Holds(view) && spec == PlaceSpec(view, node.id, node.Value(), dal.pageSize)
      modifies this, dal.ds, dal.freelist
      ensures Valid()
      ensures name == old(name) && id == old(id)
      ensures Realizes(r, spec)
    {
      assert view.pages.Keys == dal.ds.pages.Keys;
      var over := node.Overpopulated(dal.pageSize);
      if over {
        r := Split(node, |dal.ds.pages| + 1, view, spec);
      } else {
        r := WriteBack(node, view, spec);
      }
    }

    /** dal.Serialize(node) under the node's own id, unless Node.Serialize would panic. */
    method WriteBack(node: Node, ghost view: Store, ghost spec: Result<Store>) returns (r: Result<()>)
      requires Valid() && Holds(view) && spec == WriteBackSpec(view, node.id, node.Value(), dal.pageSize)
      modifies dal.ds
      ensures Valid()
      ensures Realizes(r, spec)
    {
      if !SerializeSafe(node.Value(), dal.pageSize) {
        return Err(Panic);
      }
      DiskWrite(view.pages, node.id, node.Value(), dal.pageSize);
      dal.SerializeNode(node, node.id);
      return Ok(());
    }

    /** Split(n): the median moves up into the parent (a new root when n is the root), the two
        halves are written to fresh pages, and the parent is split in turn while it is
        overpopulated. fuel bounds that recursion; view stands for the engine state and spec
        is the outcome SplitSpec prescribes. */
    method Split(n: Node, fuel: nat, ghost view: Store, ghost spec: Result<Store>) returns (r: Result<()>)
      requires Valid() && Holds(view) && spec == SplitSpec(view, n.id, n.Value(), dal.pageSize, fuel)
      modifies this, dal.ds, dal.freelist
      ensures Valid()
      ensures name == old(name) && id == old(id)
      ensures Realizes(r, spec)
      decreases fuel, 2
    {
      if fuel == 0 {
        return Err(Panic);
      }
      DiskLoads(view.pages, n.parent);
      ghost var view1 := view;
      var parent: Node;
      var p := Parent(n);
      if p.Err? {
        if p.error != NoParentFound {
          return Err(p.error);
        }
        var pid := dal.freelist.Id();
        parent := new Node(pid, 0, [], []);
        root := parent.id;
        view1 := view.(free := dal.freelist.Value(), root := pid);
      } else {
        parent := p.value;
      }
      assert SplitParent(view, n.Value()) == Ok((parent.id, parent.Value(), view1));
      if |n.items| == 0 {
        return Err(Panic);
      }
      r := Promote(n, parent, fuel, view1, spec);
    }

    /** Split after the parent is known: promote the median, release n's page, allocate a and b
        and adopt them. */
    method Promote(n: Node, parent: Node, fuel: nat, ghost view: Store, ghost spec: Result<Store>) returns (r: Result<()>)
      requires Valid() && Holds(view) && |n.items| > 0 && fuel > 0 && parent != n
      requires spec == PromoteSpec(view, n.id, n.Value(), parent.id, parent.Value(), dal.pageSize, fuel)
      modifies this, dal.ds, dal.freelist, parent
      ensures Valid()
      ensures name == old(name) && id == old(id)
      ensures Realizes(r, spec)
      decreases fuel, 1
    {
      ghost var pv := parent.Value();
      var a, b, promoted := Nodes.Split(n);
      var ptr := parent.Insert(promoted);
      a.parent, b.parent := parent.id, parent.id;
      var aid, bid := Reallocate(n.id);
      PromoteUnfold(view, n.id, n.Value(), parent.id, pv, dal.pageSize, fuel, aid, bid, dal.freelist.Value());
      a.id, b.id := aid, bid;
      var attached := Attach(parent, ptr, aid, bid);
      if !attached {
        assert Adopt(pv, promoted, aid, bid) == None;
        return Err(Panic);
      }
      assert Adopt(pv, promoted, aid, bid) == Some(parent.Value());
      r := Persist(parent, a, b, fuel, view.(free := dal.freelist.Value()), spec);
    }

    /** parent.addChild(ptr, a) then parent.addChild(ptr + 1, b); false where the first would
        index past the children (a Go panic), and parent is then left as it was. */
    method Attach(parent: Node, ptr: nat, aid: u64, bid: u64) returns (attached: bool)
      modifies parent
      ensures attached <==> ptr <= |old(parent.children)|
      ensures attached ==> parent.children == WithChild(WithChild(old(parent.children), ptr, aid), ptr + 1, bid)
      ensures parent.items == old(parent.items) && parent.parent == old(parent.parent) && parent.id == old(parent.id)
      ensures !attached ==> parent.children == old(parent.children)
    {
      if ptr > |parent.children| {
        return false;
      }
      parent.AddChild(ptr, aid);
      parent.AddChild(ptr + 1, bid);
      return true;
    }

    /** Split's page bookkeeping: n's page is released, then the two halves take an id each. */
    method Reallocate(nid: u64) returns (aid: u64, bid: u64)
      modifies dal.freelist
      ensures (aid, bid, dal.freelist.Value()) == SplitIds(old(dal.freelist.Value()), nid)
    {
      dal.freelist.Release(nid);
      aid := dal.freelist.Id();
      bid := dal.freelist.Id();
    }

    /** Split's writes of parent, a and b, and the recursion into an overpopulated parent. */
    method Persist(parent: Node, a: Node, b: Node, fuel: nat, ghost view: Store, ghost spec: Result<Store>) returns (r: Result<()>)
      requires Valid() && Holds(view) && fuel > 0
      requires spec == PersistSpec(view, parent.id, parent.Value(), a.id, a.Value(), b.id, b.Value(), dal.pageSize, fuel)
      modifies this, dal.ds, dal.freelist
      ensures Valid()
      ensures name == old(name) && id == old(id)
      ensures Realizes(r, spec)
      decreases fuel, 0
    {
      var written, over, after := WriteSplit(parent, a, b, fuel, view, spec);
      if !written {
        return Err(Panic);
      }
      if over {
        r := Split(parent, fuel - 1, after, spec);
        return;
      }
      return Ok(());
    }

    /** The three writes of Split, parent, a and b each on its own page, when all three fit
        a page (nothing is written otherwise), then the fill test of the parent. spec, the
        outcome PersistSpec prescribes, is then the split of the parent or the state as written. */
    method WriteSplit(parent: Node, a: Node, b: Node, fuel: nat, ghost view: Store, ghost spec: Result<Store>)
      returns (written: bool, over: bool, ghost after: Store)
      requires Valid() && Holds(view) && fuel > 0
      requires spec == PersistSpec(view, parent.id, parent.Value(), a.id, a.Value(), b.id, b.Value(), dal.pageSize, fuel)
      modifies dal.ds
      ensures Valid() && Holds(after)
      ensures written <==> SerializeSafe(parent.Value(), dal.pageSize) && SerializeSafe(a.Value(), dal.pageSize)
                           && SerializeSafe(b.Value(), dal.pageSize)
      ensures written ==> after == Written(view, parent.id, parent.Value(), a.id, a.Value(), b.id, b.Value(), dal.pageSize)
      ensures !written ==> after == view && spec == Err(Panic)
      ensures written ==> (over <==> Overfull(parent.items, dal.pageSize))
      ensures written && over ==> spec == SplitSpec(after, parent.id, parent.Value(), dal.pageSize, fuel - 1)
      ensures written && !over ==> spec == Ok(after)
    {
      after := Written(view, parent.id, parent.Value(), a.id, a.Value(), b.id, b.Value(), dal.pageSize);
      PersistUnfold(view, parent.id, parent.Value(), a.id, a.Value(), b.id, b.Value(), dal.pageSize, fuel, after);
      if !SerializeSafe(parent.Value(), dal.pageSize) || !SerializeSafe(a.Value(), dal.pageSize) || !SerializeSafe(b.Value(), dal.pageSize) {
        return false, false, view;
      }
      ghost var m1 := view.pages[parent.id := Image(parent.Value(), dal.pageSize)];
      ghost var m2 := m1[a.id := Image(a.Value(), dal.pageSize)];
      DiskWrite(view.pages, parent.id, parent.Value(), dal.pageSize);
      DiskWrite(m1, a.id, a.Value(), dal.pageSize);
      DiskWrite(m2, b.id, b.Value(), dal.pageSize);
      dal.SerializeNode(parent, parent.id);
      dal.SerializeNode(a, a.id);
      dal.SerializeNode(b, b.id);
      written := true;
      over := parent.Overpopulated(dal.pageSize);
    }
  }
}
