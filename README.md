# A verified model of the gaslight B-tree storage engine

This project models the storage core of gatekeeper's embedded key/value store, gaslight
(`internal/gaslight/internal/dal`), in Dafny, together with the event-sourced `Entity`
of `internal/entity`.

- **Pages.** The data access layer (DAL) keeps fixed-size pages in a datasource. Page 0 holds
  a metadata record, which names the page that holds the freelist. The freelist is the page
  allocator: a high-water mark plus a stack of released page ids.
- **Nodes.** A B-tree node stores its items (key/value byte strings) and its child page ids
  on one page.
  - The head region grows forward from byte 0: the leaf flag, the parent id, the item count,
    and then one slot per item (child id and payload offset).
  - The tail region grows backward from the end: per item, the key length, the key, the
    value length and the value.
- **Collection.** A collection is a named tree.
  - `Find` descends from the root to the first node that holds the key.
  - `Insert` descends to a leaf, inserts the item in key order, and writes the leaf back.
    When the leaf is overpopulated it splits it instead.
  - A split promotes the median into the parent (a new root when the node was the root),
    writes both halves, and splits the parent in turn when the parent is overpopulated.
- **Entity.** An `Entity` records raised events and stamps each with the next version number.

## Module layout

- `Bytes` (bytes.dfy): byte and integer types and the little-endian codec of `encoding/binary`.
  - `Splice` is the effect of `copy` into a buffer.
- `Cursor` (cursor.dfy): the two-direction `serializer` of dal.go, as a class over an `array`.
- `Keys` (keys.dfy): `Item`, `bytes.Compare`, and the ordered-list logic of `Node.Find`,
  `Node.Child` and `Node.Insert` as functions on item sequences.
- `NodeFormat` and `NodeCodec` (nodeformat.dfy, nodecodec.dfy): the page layout of a node.
  - `NodeImage` is the exact sequence of writes `Node.Serialize` makes.
  - `DecodeNode` is what `Node.Deserialize` reads.
  - The proof that decoding inverts encoding for every node that fits its page.
- `Nodes` (nodes.dfy): the `Node` class.
  - Its queries, in-place `Insert`/`AddChild`, the cursor-driven `Serialize`, the looping
    `Deserialize`, and the median `Split`.
  - Each is proved against the value-level functions.
- `Storage` (storage.dfy): the `Freelist`, `Metadata`, `Datasource` and `DAL` classes, with
  the freelist and metadata codecs and the `New`/`Load`/`Close` lifecycle.
- `CollectionSpec` (collectionspec.dfy): the collection layer as functions over the engine
  state `Store` (pages, freelist, root): `Search` (find), `Descend`, `InsertSpec` and
  `SplitSpec`.
  - Pages are `Frame`s: raw bytes, or a node kept as the node that `DAL.Serialize` wrote.
  - `DiskLoads` proves that reading a frame is reading the bytes it stands for.
- `Collections` (collections.dfy): the `Collection` class.
  - `Insert`, `Split` and the other state-changing methods thread a ghost view of the
    engine state.
  - Each ends with `Realizes(r, spec)`: the same outcome as the specification function,
    and the page file, freelist and root that the function's resulting `Store` stands for.
- `CollectionProperties` (collectionproperties.dfy): lemmas about find, insert and split.
- `Entities` (entities.dfy): `Event` and the `Entity` class.

Go's panics (an index out of range, `AddChild` past the end, a write past the page) become
preconditions on the node-level methods and on the serializing methods of the DAL
(`Freelist.Serialize`, `DAL.Close`, `DAL.SerializeFreelist`, `DAL.SerializeNode`). At the collection level they become the `Panic`
error, so that the recursive algorithms stay total. A page that was never written is a
failed read (`IO`). Go's `uint64` arithmetic wraps explicitly (`% U64_MODULUS`), and so do
`Entity.Version` (Go `uint`, taken as 64 bits) and the 16-bit casts of the codecs.

## Model

| member | source | states |
|---|---|---|
| Bytes.FromLEOfLE | internal/gaslight/internal/dal/dal.go:120-126 | Reading back the little-endian encoding of a number that fits w bytes gives the number. |
| Bytes.LEOfFromLE | internal/gaslight/internal/dal/dal.go:120-126 | Encoding the number read from w bytes gives back those bytes. |
| Bytes.Zeros | internal/gaslight/internal/dal/dal.go:133-137 | A freshly allocated page buffer is n bytes, all zero. |
| Cursor.CopyInto | internal/gaslight/internal/dal/dal.go:238 | Go's copy writes min(len(src), room) bytes at pos and leaves every other byte unchanged. |
| Cursor.PutUint64At | internal/gaslight/internal/dal/dal.go:94 | PutUint64 writes exactly the 8 little-endian bytes of x at pos. |
| Cursor.Serializer.constructor | internal/gaslight/internal/dal/node.go:152-160 | A cursor starts at the given position and direction on the given buffer. |
| Cursor.Serializer.PutUint64 | internal/gaslight/internal/dal/dal.go:204-212 | A backward cursor steps back 8 bytes before writing; a forward one writes and then steps 8 bytes. The 8 bytes land at the target, and nothing else changes. |
| Cursor.Serializer.PutUint16 | internal/gaslight/internal/dal/dal.go:214-222 | The same for 2 bytes. |
| Cursor.Serializer.PutUint8 | internal/gaslight/internal/dal/dal.go:224-232 | The same for 1 byte. |
| Cursor.Serializer.Put | internal/gaslight/internal/dal/dal.go:234-242 | The position moves by len(bytes) in the cursor's direction. As many bytes as fit are copied at the target. |
| Cursor.Serializer.Position | internal/gaslight/internal/dal/dal.go:248-250 | Returns the cursor's current position. |
| Cursor.Serializer.Step | internal/gaslight/internal/dal/dal.go:244-246 | The position moves by steps times the direction. |
| Keys.Compare | internal/gaslight/internal/dal/node.go:18-20 | bytes.Compare returns -1, 0 or 1, and 0 exactly when the keys are equal. |
| Keys.CompareAntisymmetric | internal/gaslight/internal/dal/node.go:18-20 | Swapping the arguments negates the comparison. |
| Keys.CompareTransitive | internal/gaslight/internal/dal/node.go:18-20 | The order is transitive, and strict when either step is strict. |
| Keys.FirstMatch | internal/gaslight/internal/dal/node.go:32-39 | The index of the first item whose key is byte-equal to key; no earlier item has that key. |
| Keys.LookupMeaning | internal/gaslight/internal/dal/node.go:32-39 | Find reports nothing exactly when no item has the key. Otherwise the item it reports is in the node and has exactly that key. |
| Keys.ChildPos | internal/gaslight/internal/dal/node.go:43-55 | The least index whose key is greater than key: every earlier key is at most key. |
| Keys.ChildPosAt | internal/gaslight/internal/dal/node.go:75-80 | A scan that stops at the first greater key has found ChildPos. |
| Keys.ShiftThenSet | internal/gaslight/internal/dal/node.go:84-85 | append(items[:i+1], items[i:]...) followed by items[i] = it inserts it at index i. |
| Keys.InsertItemShape | internal/gaslight/internal/dal/node.go:72-88 | Insert grows the list by one and puts the item at ChildPos. Earlier items stay in place, and later items shift right by one. |
| Keys.InsertItemSorted | internal/gaslight/internal/dal/node.go:72-88 | Inserting into ascending items keeps them ascending. |
| Keys.InsertItemAfterEqualKeys | internal/gaslight/internal/dal/node.go:76 | A new item lands after every existing item with an equal key. |
| Keys.InsertItemLookup | internal/gaslight/internal/dal/node.go:72-88 | After inserting an item whose key was absent, Find returns that item. |
| Keys.InsertItemLookupOther | internal/gaslight/internal/dal/node.go:72-88 | Inserting an item does not change what Find returns for any other key. |
| Keys.InsertAllSorted | internal/gaslight/internal/dal/node.go:117-126 | Re-inserting already sorted items one by one rebuilds them unchanged. |
| Keys.InsertAllLength | internal/gaslight/internal/dal/node.go:117-126 | Each re-insert adds exactly one item. |
| Keys.InsertAllSnoc | internal/gaslight/internal/dal/node.go:117-119 | One more loop iteration is one more Node.Insert. |
| NodeFormat.PayloadMonotone | internal/gaslight/internal/dal/node.go:175 | The tail region grows by at least two bytes per item. |
| NodeFormat.DecodeNode | internal/gaslight/internal/dal/node.go:189-234 | Deserialize reads as many items as the count field says. It reads one more child than items when byte 0 is 0, and no children otherwise. |
| NodeCodec.HeaderImageLayout | internal/gaslight/internal/dal/node.go:162-168 | The header writes put the leaf flag at byte 0, the parent at 1-8 and the count at 9-10. |
| NodeCodec.ItemsImageLayout | internal/gaslight/internal/dal/node.go:170-182 | After i loop iterations the header and the first i slots and payloads are in place: child id, offset, key length, key, value length, value. |
| NodeCodec.NodeImageLayout | internal/gaslight/internal/dal/node.go:151-187 | A serialized node that fits has every field where Deserialize looks for it, including the last child id. |
| NodeCodec.PayloadDecodes | internal/gaslight/internal/dal/node.go:213-222 | The offset arithmetic of Deserialize reads back a key and a value written as length-prefixed fields. |
| NodeCodec.SlotDecodes | internal/gaslight/internal/dal/node.go:204-228 | A slot in place decodes to its child id and its item. |
| NodeCodec.HeaderDecodes | internal/gaslight/internal/dal/node.go:190-200 | The header reads back as the leaf flag, the item count and the parent. |
| NodeCodec.DecodesTo | internal/gaslight/internal/dal/node.go:189-234 | A buffer whose header, slots and last child read as a node's decodes to that node. |
| NodeCodec.LayoutDecodes | internal/gaslight/internal/dal/node.go:189-234 | A buffer laid out for a node that fits decodes to that node. |
| NodeCodec.NodeRoundTrip | internal/gaslight/internal/dal/node.go:151-234 | Deserialize(Serialize(n)) restores parent, items and children when the node fits a page of at most 64 KiB: keys and values under 256 bytes, fewer than 65536 items, and the head region ending before the tail region. Byte 0 is 1 exactly when the node is a leaf. |
| Nodes.ChildRoutes | internal/gaslight/internal/dal/node.go:43-55 | In an internal node with one more child than items, Child(key) is children[p] for the least p with key < items[p].key, or the last child. Every separator before p is at most key, and every one from p on is greater. |
| Nodes.WithChild | internal/gaslight/internal/dal/node.go:60-69 | AddChild appends when index equals len(children). Otherwise it overwrites that slot, keeping the length and every other slot. |
| Nodes.ItemsCostPayload | internal/gaslight/internal/dal/node.go:92-104 | Overpopulated's per-item count is the payload size plus 8 bytes per item. |
| Nodes.LeafFitsUnlessOverfull | internal/gaslight/internal/dal/node.go:92-104 | A leaf that Overpopulated accepts, with short keys and values, fits its page, so its page round-trips. |
| Nodes.UniformCost | internal/gaslight/internal/dal/node.go:92-104 | Items of equal size cost that size times their number. |
| Nodes.InternalUndercount | internal/gaslight/internal/dal/node.go:92-104 | The size estimate leaves out the parent id and the length bytes. An internal node of eight one-byte items passes on a 128-byte page, yet its regions overlap there. |
| Nodes.SplitRebuilds | internal/gaslight/internal/dal/node.go:110-126 | On sorted items a.items == items[:m], b.items == items[m+1:], and a.items + [promoted] + b.items == items. |
| Nodes.SplitShape | internal/gaslight/internal/dal/node.go:110-137 | The halves get m and len-m-1 items. A leaf splits into two leaves. An internal node with one more child than items splits into two such nodes whose children, concatenated, are the original children. |
| Nodes.SplitFiveChildren | internal/gaslight/internal/dal/node.go:131-137 | Four items and five children split the children into [1,2,3] and [4,5]. |
| Nodes.SplitFourChildren | internal/gaslight/internal/dal/node.go:131-137 | Three items and four children split the children into [1,2] and [3,4]. |
| Nodes.DecodedItemsStep | internal/gaslight/internal/dal/node.go:210-227 | Loop iteration i of Deserialize appends the item its offset points to. |
| Nodes.DecodedChildrenStep | internal/gaslight/internal/dal/node.go:205-209 | Loop iteration i of an internal node appends the child id at its slot. |
| Nodes.DecodedItemsPrefix | internal/gaslight/internal/dal/node.go:204-228 | After i iterations the items read are the first i items of DecodeNode. |
| Nodes.DecodedChildrenPrefix | internal/gaslight/internal/dal/node.go:204-209 | After i iterations the children read are the first i children of DecodeNode. |
| Nodes.DecodedWhole | internal/gaslight/internal/dal/node.go:189-234 | The parent, the items and the children plus the final child are exactly DecodeNode. |
| Nodes.Node.constructor | internal/gaslight/internal/dal/node.go:22-27 | A node with the given id, parent, children and items. |
| Nodes.Node.Leaf | internal/gaslight/internal/dal/node.go:141-144 | A node is a leaf exactly when it is not a parent, that is when it has no children. |
| Nodes.Node.Parent | internal/gaslight/internal/dal/node.go:146-149 | A node is a parent when it has at least one child. |
| Nodes.Node.Find | internal/gaslight/internal/dal/node.go:32-39 | Returns the first item whose key equals key, or nothing (see LookupMeaning). |
| Nodes.Node.Child | internal/gaslight/internal/dal/node.go:43-55 | Returns ChildOf: the child at the first greater separator, or the last child. |
| Nodes.Node.AddChild | internal/gaslight/internal/dal/node.go:60-69 | Children become WithChild(old children, index, id). The call requires index <= len(children), where Go panics. Items, parent and id are unchanged. |
| Nodes.Node.Insert | internal/gaslight/internal/dal/node.go:72-88 | Returns ChildPos and leaves items == InsertItem(old items, item). Children, parent and id are unchanged. |
| Nodes.Node.Overpopulated | internal/gaslight/internal/dal/node.go:92-104 | True exactly when 10 * (1 + 2 + sum(len(key) + len(value) + 10) + 8) >= 9 * pageSize. |
| Nodes.Node.Serialize | internal/gaslight/internal/dal/node.go:151-187 | The buffer becomes NodeImage(old buffer, node), under the condition that no write leaves the buffer. |
| Nodes.PutItems | internal/gaslight/internal/dal/node.go:170-182 | The item loop leaves the buffer as ItemsImage after every item. |
| Nodes.PutItem | internal/gaslight/internal/dal/node.go:170-182 | One iteration advances both cursors past one slot and one payload and writes ItemImage. |
| Nodes.SlotCursors | internal/gaslight/internal/dal/node.go:175 | The head cursor moves 10 (internal) or 2 (leaf) bytes per item. The tail cursor moves back by the payload size. |
| Nodes.PutHeader | internal/gaslight/internal/dal/node.go:162-168 | Writes the leaf flag, parent and count at bytes 0, 1 and 9, and leaves the head cursor at 11. |
| Nodes.SlotStep | internal/gaslight/internal/dal/node.go:170-182 | The writes of one iteration are ItemImage of that iteration. |
| Nodes.PutSlot | internal/gaslight/internal/dal/node.go:171-181 | Writes the child id and offset forward, then the value, its length, the key and its length backward. The offset is truncated to 16 bits. |
| Nodes.ReadPayload | internal/gaslight/internal/dal/node.go:210-222 | Reads the key length, key, value length and value at the offset. |
| Nodes.Node.Deserialize | internal/gaslight/internal/dal/node.go:189-234 | The node's value becomes DecodeNode(buf); its id is kept. Requires that no read indexes out of range. |
| Nodes.FromItems | internal/gaslight/internal/dal/node.go:113-126 | A fresh node holding the items inserted one by one. |
| Nodes.AddChildren | internal/gaslight/internal/dal/node.go:131-137 | AddChild(i, child) for each i fills an empty children list with exactly the given ids. |
| Nodes.Split | internal/gaslight/internal/dal/node.go:110-139 | Two fresh nodes: a is SplitLeft, b is SplitRight, and promoted is items[len/2]. |
| Storage.NextId | internal/gaslight/internal/dal/dal.go:76-86 | freelist.id() as written: the id handed out is a released one or, with none released, the new high-water mark; no released id survives the call. |
| Storage.NextIdFresh | internal/gaslight/internal/dal/dal.go:76-80 | With nothing released, id() returns allocated + 1 and records it. |
| Storage.NextIdReuses | internal/gaslight/internal/dal/dal.go:81-85 | With ids released, id() returns the last one and keeps allocated. As written it empties the whole stack, not just its top. |
| Storage.ReleaseThenNext | internal/gaslight/internal/dal/dal.go:81-90 | The id released last is the next one handed out. |
| Storage.SecondReleaseLost | internal/gaslight/internal/dal/dal.go:76-90 | After releasing x then y, two allocations return y and a new page; x is lost. |
| Storage.IdsImageLayout | internal/gaslight/internal/dal/dal.go:98-101 | The release loop puts id j at byte 16 + 8j and leaves the first 16 bytes unchanged. |
| Storage.FreelistImageLayout | internal/gaslight/internal/dal/dal.go:92-102 | The freelist page holds allocated at 0, the count at 8, and the ids from 16 on. |
| Storage.DecodeFreelist | internal/gaslight/internal/dal/dal.go:104-114 | Deserialize reads as many ids as the count field says. |
| Storage.FreelistRoundTrip | internal/gaslight/internal/dal/dal.go:92-114 | Deserialize(Serialize(f)) == f whenever the ids fit the page. |
| Storage.MetadataRoundTrip | internal/gaslight/internal/dal/dal.go:120-126 | The metadata page reads back the freelist page id it was written with. |
| Storage.CloseKeeps | internal/gaslight/internal/dal/dal.go:183-194 | Close rewrites only the freelist page and page 0; every other page keeps its bytes. |
| Storage.CloseThenLoad | internal/gaslight/internal/dal/dal.go:183-194 | After Close, Load finds the closed freelist on the page the metadata names. |
| Storage.CreateThenLoad | internal/gaslight/internal/dal/dal.go:21-39 | After New, Load finds the empty freelist with allocated 2 on page 2. |
| Storage.Datasource.constructor | internal/gaslight/internal/dal/dal.go:59-62 | A medium holding the given pages. |
| Storage.PutIds | internal/gaslight/internal/dal/dal.go:98-101 | The loop writes IdsImage: each id as a u64 from byte 16 on. |
| Storage.Freelist.constructor | internal/gaslight/internal/dal/dal.go:71-74 | A freelist with the given allocated count and nothing released. |
| Storage.Freelist.Id | internal/gaslight/internal/dal/dal.go:76-86 | Returns and records NextId of the old state. |
| Storage.Freelist.Release | internal/gaslight/internal/dal/dal.go:88-90 | Pushes the id on the released stack. |
| Storage.Freelist.Serialize | internal/gaslight/internal/dal/dal.go:92-102 | The buffer becomes FreelistImage of the freelist. |
| Storage.Freelist.Deserialize | internal/gaslight/internal/dal/dal.go:104-114 | The freelist becomes DecodeFreelist(buf). |
| Storage.Metadata.constructor | internal/gaslight/internal/dal/dal.go:116-118 | The zero metadata names page 0. |
| Storage.Metadata.Serialize | internal/gaslight/internal/dal/dal.go:120-122 | Writes the freelist page id as 8 little-endian bytes. |
| Storage.Metadata.Deserialize | internal/gaslight/internal/dal/dal.go:124-126 | Reads the freelist page id from the first 8 bytes. |
| Storage.DAL.New | internal/gaslight/internal/dal/dal.go:21-39 | The freelist starts with page 0 pre-allocated and hands page 2 to itself. Freelist and metadata are written, and the pages become Created. |
| Storage.DAL.Empty | internal/gaslight/internal/dal/dal.go:41-47 | The DAL Load starts from: zero freelist and zero metadata. |
| Storage.DAL.Load | internal/gaslight/internal/dal/dal.go:41-57 | Succeeds exactly when Loaded does, with the same error, and ends holding the metadata and freelist Loaded reads. |
| Storage.DAL.Close | internal/gaslight/internal/dal/dal.go:183-194 | The pages become Closed: the freelist re-written on its page, then the metadata on page 0. |
| Storage.DAL.Allocate | internal/gaslight/internal/dal/dal.go:133-137 | A fresh zeroed page buffer. |
| Storage.DAL.Read | internal/gaslight/internal/dal/dal.go:139-151 | Returns the stored page, or IO for a page never written. |
| Storage.DAL.Write | internal/gaslight/internal/dal/dal.go:153-161 | Replaces page id and no other. |
| Storage.DAL.SerializeFreelist | internal/gaslight/internal/dal/dal.go:163-172 | Page id becomes the freelist image of a zeroed page. |
| Storage.DAL.SerializeMetadata | internal/gaslight/internal/dal/dal.go:163-172 | Page id becomes the metadata image of a zeroed page. |
| Storage.DAL.SerializeNode | internal/gaslight/internal/dal/dal.go:163-172 | Page id becomes NodeImage of a zeroed page; no other page changes. |
| Storage.DAL.DeserializeFreelist | internal/gaslight/internal/dal/dal.go:174-181 | Fails with IO on a missing page and with Panic on a short one. Otherwise the freelist becomes the decoded page. |
| Storage.DAL.DeserializeMetadata | internal/gaslight/internal/dal/dal.go:174-181 | Fails with IO on a missing page. Otherwise the metadata becomes the decoded page. |
| Storage.DAL.DeserializeNode | internal/gaslight/internal/dal/dal.go:174-181 | Fails with IO on a missing page and with Panic where Deserialize would index out of range. Otherwise the node becomes DecodeNode of the page, keeping its id. |
| CollectionSpec.CollectionImage | internal/gaslight/internal/dal/collection.go:25-33 | Serialize writes root, name length and as much of the name as fits, keeping the buffer length. |
| CollectionSpec.DecodedName | internal/gaslight/internal/dal/collection.go:35-44 | Deserialize's name is as long as the stored length says. |
| CollectionSpec.CollectionRoundTrip | internal/gaslight/internal/dal/collection.go:25-44 | The header reads back its root and name when the name fits the page and 16 bits. |
| CollectionSpec.FrameLoads | internal/gaslight/internal/dal/dal.go:163-181 | Reading a page kept as a node reads the bytes Serialize writes for it. |
| CollectionSpec.DiskLoads | internal/gaslight/internal/dal/dal.go:163-181 | Every page of the model state reads as the page file it stands for. |
| CollectionSpec.DiskLift | internal/gaslight/internal/dal/dal.go:163-181 | A page file taken as raw frames stands for itself. |
| CollectionSpec.DiskWrite | internal/gaslight/internal/dal/dal.go:163-172 | Keeping a written node as a frame is writing NodeImage to the page file. |
| CollectionSpec.LoadedChildSafe | internal/gaslight/internal/dal/node.go:43-55 | A node read from a page never makes Child index out of range. |
| CollectionSpec.Search | internal/gaslight/internal/dal/collection.go:55-68 | A found node holds the key. |
| CollectionSpec.SearchItem | internal/gaslight/internal/dal/collection.go:46-53 | Find's item has exactly the key, and Find fails exactly when find fails. |
| CollectionSpec.Descend | internal/gaslight/internal/dal/collection.go:75-89 | Insert's descent ends at a leaf. |
| CollectionSpec.InsertSpec | internal/gaslight/internal/dal/collection.go:70-95 | Insert on the engine state: the leaf Descend reaches gets the item in order, then PlaceSpec splits it or writes it back. Its properties are InsertInPlace, InsertThenFind and InsertKeepsOthers. |
| CollectionSpec.SplitSpec | internal/gaslight/internal/dal/collection.go:97-142 | Split on the engine state: the parent, or a new root on a fresh page that becomes the collection's root, then PromoteSpec. Its properties are RootSplit and StaleParentAfterRootSplit. |
| CollectionSpec.PromoteSpec | internal/gaslight/internal/dal/collection.go:116-126 | The median goes into the parent, n's page is released and a and b take the next two ids. Adopt then gives them their slots, or Panic where AddChild would. |
| CollectionSpec.Adopt | internal/gaslight/internal/dal/collection.go:117-125 | parent.Insert(promoted) followed by AddChild(ptr, a) and AddChild(ptr + 1, b). None where the first AddChild would panic. See AdoptIntoEmptyRoot, AdoptAtEnd and AdoptInside. |
| CollectionSpec.PersistSpec | internal/gaslight/internal/dal/collection.go:127-141 | Panic unless all three nodes serialize; otherwise the three pages are written, and the parent is split in turn when it is overpopulated. |
| CollectionSpec.DescendReadsLeaf | internal/gaslight/internal/dal/collection.go:81-89 | The descent ends at a page that reads as a leaf. Insert holds that leaf with only its parent id changed. |
| CollectionSpec.LoadsAs | internal/gaslight/internal/dal/collection.go:57 | A decodable page loads as DecodeNode of its bytes. |
| CollectionSpec.SearchStep | internal/gaslight/internal/dal/collection.go:55-68 | One step of find: stop at a node holding key, fail at a leaf, else continue at Child(key). |
| CollectionSpec.DescendStep | internal/gaslight/internal/dal/collection.go:81-89 | One step of Insert's loop: continue at Child(key), with the current id as the parent. |
| CollectionSpec.DescendLeaf | internal/gaslight/internal/dal/collection.go:81-90 | At a leaf the loop stops, holding the leaf with the parent it was given. |
| CollectionSpec.PromoteUnfold | internal/gaslight/internal/dal/collection.go:116-126 | A failed adopt panics; otherwise Split continues with the three writes. |
| CollectionSpec.PersistUnfold | internal/gaslight/internal/dal/collection.go:127-141 | A page that would not serialize panics. Otherwise the state is the three writes, followed by the parent's split when it is overpopulated. |
| CollectionSpec.LeafFor | internal/gaslight/internal/dal/collection.go:75-89 | The leaf reached from the root has no children. |
| CollectionSpec.InsertedLeaf | internal/gaslight/internal/dal/collection.go:70-90 | The leaf after node.Insert(item) is a leaf that holds the key. |
| CollectionSpec.WriteBackSpec | internal/gaslight/internal/dal/collection.go:94 | Writing the leaf back succeeds exactly when it serializes. The leaf's page then reads as the leaf, and the freelist, the root and every other page are unchanged. |
| Collections.Collection.constructor | internal/gaslight/internal/dal/collection.go:18-23 | A collection with the given id, name, root and DAL, as Go's struct literal sets them. |
| Collections.Collection.Serialize | internal/gaslight/internal/dal/collection.go:25-33 | The buffer becomes CollectionImage, written through a forward cursor. |
| Collections.Collection.Deserialize | internal/gaslight/internal/dal/collection.go:35-44 | root and name become those stored in the buffer. |
| Collections.Collection.FindNode | internal/gaslight/internal/dal/collection.go:55-68 | find returns the node, or the error, that Search gives on the page file. |
| Collections.Collection.Find | internal/gaslight/internal/dal/collection.go:46-53 | Find returns SearchItem of the page file: an item with exactly the key, or find's error. |
| Collections.Collection.Parent | internal/gaslight/internal/dal/collection.go:144-154 | NoParentFound for a root. Otherwise the node read from the parent page, or that read's error. |
| Collections.Collection.DescendToLeaf | internal/gaslight/internal/dal/collection.go:75-89 | The loop ends at LeafFor's leaf, with its id, or with the error of the read that failed. |
| Collections.Collection.ReadChild | internal/gaslight/internal/dal/collection.go:82-88 | The node takes the value of the child Child(key) names, that child's id, and its own former id as parent. |
| Collections.Collection.Insert | internal/gaslight/internal/dal/collection.go:70-95 | Outcome and resulting state are InsertSpec of the state before. The collection's name and id stay. |
| Collections.Collection.Place | internal/gaslight/internal/dal/collection.go:90-94 | Split when overpopulated, else write back, as PlaceSpec says. The collection's name and id stay. |
| Collections.Collection.WriteBack | internal/gaslight/internal/dal/collection.go:94 | dal.Serialize(node, node.id) realizes WriteBackSpec. |
| Collections.Collection.Split | internal/gaslight/internal/dal/collection.go:97-142 | Outcome and resulting state are SplitSpec, including the new root for a root node. Only the root of the collection may change: its name and id stay. |
| Collections.Collection.Promote | internal/gaslight/internal/dal/collection.go:116-126 | Realizes PromoteSpec: promote, release, allocate a and b, adopt them. The collection's name and id stay. |
| Collections.Collection.Attach | internal/gaslight/internal/dal/collection.go:124-125 | Both AddChild calls happen exactly when the first index is in range. Otherwise the parent is unchanged. |
| Collections.Collection.Reallocate | internal/gaslight/internal/dal/collection.go:119-122 | n's page is released, then a and b take the next two ids (SplitIds). |
| Collections.Collection.Persist | internal/gaslight/internal/dal/collection.go:127-141 | Realizes PersistSpec: the three writes, then the parent's split when it is overpopulated. The collection's name and id stay. |
| Collections.Collection.WriteSplit | internal/gaslight/internal/dal/collection.go:127-138 | The writes happen exactly when all three nodes serialize. The state becomes Written, and over says whether the parent is overpopulated. |
| CollectionProperties.SearchOnDisk | internal/gaslight/internal/dal/collection.go:55-68 | find on the model state and on the page file it stands for stops at the same depth with the same node. |
| CollectionProperties.MissReachesLeaf | internal/gaslight/internal/dal/collection.go:55-89 | When find misses, Insert's descent reaches a leaf that has no item with the key. |
| CollectionProperties.FindAfterLeafWrite | internal/gaslight/internal/dal/collection.go:55-68 | Rewriting the leaf where find gave up with a leaf that holds the key makes the same search find it. |
| CollectionProperties.InsertInPlace | internal/gaslight/internal/dal/collection.go:70-95 | Without overpopulation, Insert writes the leaf, one item longer, under its own id. The freelist and the root are unchanged. |
| CollectionProperties.InsertThenFind | internal/gaslight/internal/dal/collection.go:46-95 | Inserting a missing key without a split makes Find(key) on the resulting page file return the new item. |
| CollectionProperties.LeafRewriteKeeps | internal/gaslight/internal/dal/collection.go:54-68 | Replacing a leaf page by another leaf that answers the same for key k leaves find(k) from any page unchanged, both whether it ends and what it returns. |
| CollectionProperties.InsertKeepsOthers | internal/gaslight/internal/dal/collection.go:46-95 | Inserting key without a split leaves Find(k) on the page file unchanged for every other key k: found items stay found, and missing keys stay missing. |
| CollectionProperties.SplitReusesPage | internal/gaslight/internal/dal/collection.go:119-122 | a takes n's released page back, and b takes a new page. |
| CollectionProperties.RootParent | internal/gaslight/internal/dal/collection.go:100-111 | Splitting the root makes a fresh empty parent on a new page, which becomes the root. |
| CollectionProperties.AdoptIntoEmptyRoot | internal/gaslight/internal/dal/collection.go:104-125 | The new root gets the median as its only item and a, b as its children. |
| CollectionProperties.AdoptAtEnd | internal/gaslight/internal/dal/collection.go:117-125 | When n was the last child, a takes its slot and b is appended, so the parent keeps one more child than items. |
| CollectionProperties.AdoptInside | internal/gaslight/internal/dal/collection.go:124-125 | Anywhere else AddChild(ptr+1, b) overwrites the right neighbour. The parent is left with as many children as items. |
| CollectionProperties.RootSplitIds | internal/gaslight/internal/dal/collection.go:105-122 | A root split uses three different pages: the new root's, n's own (taken by a), and a new one for b. |
| CollectionProperties.RootSplitState | internal/gaslight/internal/dal/collection.go:97-141 | The state after a root split that needs no further split. |
| CollectionProperties.RootSplitReads | internal/gaslight/internal/dal/collection.go:127-135 | The three pages of a root split read back from the page file as written, and no other page changes. |
| CollectionProperties.ImageOnDisk | internal/gaslight/internal/dal/dal.go:163-181 | A page written with a node that fits reads back from the page file as that node. |
| CollectionProperties.RootSplit | internal/gaslight/internal/dal/collection.go:97-141 | The root becomes a fresh page holding the median, with children a (on n's page) and b. Both halves name the new root as parent, the freelist ends empty, and no other page changes. |
| CollectionProperties.StaleParentAfterRootSplit | internal/gaslight/internal/dal/collection.go:121-135 | The children moved to b still name n's page as their parent. |
| Entities.NewEvent | internal/entity/entity.go:8-14 | An unversioned event with the given name and payload, created at the clock reading. |
| Entities.NumberedAscending | internal/entity/entity.go:40-42 | From a fresh entity and below 2^64 raises, event versions are exactly 1, 2, ..., n in order. |
| Entities.NumberedWraps | internal/entity/entity.go:40 | The 2^64-th event wraps back to version 0. |
| Entities.Entity.constructor | internal/entity/entity.go:23-29 | The zero entity: no events, version 0. |
| Entities.Entity.Events | internal/entity/entity.go:31-35 | A fresh array equal to the events, same length and order. |
| Entities.Entity.Raise | internal/entity/entity.go:37-43 | On any entity, including one whose exported Version differs from its event count, Raise stamps the event with Version + 1 (wrapping) and appends exactly that event. The entity's version becomes the event's. An entity whose versions were 1..n keeps that numbering. |

## Left out

- Delete and rebalancing (`Delete`, `delete`, `balance`, the rotations, `merge` and the siblings, collection.go:156-296) are not modelled.
  - `balance` panics unconditionally.
  - They call `Node.ChildIndex`, `Node.ItemIndex` and `Node.Delete`, which are not part of this model.
- Datasource I/O is replaced by an in-memory page map. Seek, read and write errors and short reads are not modelled; a page never written reads as the `IO` error.
- The page size is a parameter of the DAL and of `Overpopulated`, instead of `os.Getpagesize()`.
- Float arithmetic is replaced by exact integer arithmetic.
  - `Overpopulated`'s `size >= 0.9 * pagesize` becomes `10 * size >= 9 * pageSize`.
  - `int(float64(n) / 2)` becomes `n / 2`, and `math.Round(float64(c) / 2)` becomes `(c + 1) / 2`.
- The debug `fmt.Println` in `Node.Insert` is not modelled.
- Entities.Entity.Raise: the model describes `Raise` as if the entity's mutex were set. In the source, `mu *sync.Mutex` (entity.go:24) is never initialised, so `e.mu.Lock()` dereferences nil and panics on every call. The locking itself is not modelled either.
- Event payloads are a type parameter. The creation time is a parameter of `NewEvent` instead of a clock read.
- Entities.Entity.Events: returns a fresh array, where Go returns a slice copy.
- `DAL.Close`'s guard for a nil datasource is not modelled; the model's DAL always has a medium.
- The network server, the gatekeeper command, and the events and errors files of the repository are not part of this model.
- Collections.Collection.Find: the model adds a ghost `depth` bound on the descent (`Bottoms`), so its contract covers trees whose descent ends. A page cycle, on which Go's recursion would not end, is outside it.
- Collections.Collection.Insert: carries the same ghost `depth` bound for its descent.
- Collections.Collection.Split: the recursion into overpopulated parents is bounded by a fuel of one more than the number of pages. Running out of fuel gives `Panic`, a case Go does not have.
- Collections.Collection.Persist: checks that all three pages serialize before writing any of them. Go writes the parent, then a, then b, and panics at the first that does not fit. After such a panic the model's page file is the one before the split, not a partly written one.
- CollectionSpec.LoadFrame: a page written with a node that does not fit it reads back as the bytes `Node.Serialize` wrote, decoded (`Misread`). The specification functions keep such a page as the node. `DiskLoads` proves the two views agree.
- Nodes.Node.Serialize and Nodes.Node.Deserialize take preconditions where Go panics: a write past the buffer, a read past the page. `Node.Deserialize` also requires that the 16-bit offset arithmetic does not wrap.
- Storage.DAL.Load: reads the metadata and the freelist from the page map only. Errors of the medium other than a missing page are not modelled.
- Nodes.Node.Overpopulated: uses the integer form of the fill test. It agrees with Go's float comparison for power-of-two page sizes, which are what `os.Getpagesize` returns; other page sizes are not argued.
