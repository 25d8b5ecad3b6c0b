# pbtrie pointer trie, modelled in Dafny

This project models `pointerTrie`, the all-pointers implementation of the `BTrie` ordered
byte-keyed map, together with two pieces that go with it:
- the generic pre-order traversal that its range scans use;
- the two deterministic helpers of the fuzz tests.

The trie is a tree of heap nodes. Each node has:
- a key byte;
- a terminal flag;
- a value, meaningful only while the node is terminal;
- a slice of children, kept strictly ascending by key byte.

A key is stored when the path of key bytes from the root ends at a terminal node. The trie is
the root node itself.

Modules, one per file:

- `Bytes` (bytes.dfy): the byte type, and `Compare`, which is Go's `bytes.Compare` (lexicographic order). It also holds the order facts the other modules use.
- `PointerTrie` (pointertrie.dfy): `class Node<V>` with the fields of the Go struct.
  - It gets ghost state: each node's key (`path`), and on the root a map `NodeAt` from every key prefix the trie has a node for to that node.
  - `Valid()` is the shape every trie keeps:
    - children are strictly ascending;
    - every child sits at its parent's key extended by its key byte;
    - every node below the root is a child of the node at its parent key.
  - `Compact()` says that no node other than the root is a non-terminal leaf.
  - `Contents()` is the abstract map from stored keys to values.
  - `Put`, `Get`, `Delete` and `search` are imperative methods over the heap. They have the same loops, branches, in-place field updates and child-slice splices as the Go code.
  - `Range` takes a value snapshot (`Snap`) of the trie and runs the traversal and filter of `TrieRange` on it.
- `TrieRange` (range.dfy): the value-level side of `Range`:
  - the snapshot datatype;
  - `forwardChildAdj` and `reverseChildAdj` as loops, proved against the functions that specify them;
  - the Compare filter loop of the returned sequence;
  - the proofs that a forward scan of a sorted trie visits keys in strictly ascending order and visits every node its child bounds admit.
- `Traversers` (traversers.dfy): `preOrder`/`preOrderRecurse` as functions over an adjacency function. Two consumers are modelled:
  - `Walk`, for a consumer that takes every path;
  - `Recurse`, for a consumer that accepts `quota` paths and then refuses one. It records what is yielded, which paths `adj` is called on, and whether the walk reports done.
- `FuzzInputs` (fuzz.dfy): `keyForFuzzInputs` and the begin/end normalisation of `FuzzRange`.

Two revisions of the code are mixed. `adjFunction` in traversers.go:5 is given the whole path (`[]T`), while pointertrie.go:157-203 builds adjacency functions over a single `*rangePath`. The model follows each file as written. `TrieRange.ForwardPathAdj` lifts `forwardChildAdj` to a whole-path adjacency that looks only at the path's last node. The nodes Range visits are the last elements of the paths that `preOrder` yields.

`Bounds` and `postOrder` are not part of this model. A `Bounds` is a datatype holding:
- its direction;
- its `Compare` function, where a negative result means below, zero within and positive above;
- its `childBounds` function, returning start, stop and ok.

`postOrder` is a parameter of `Range`. The consumer of Go's lazy sequences is modelled as taking everything, except in `Traversers.Recurse`, which models a consumer that stops.

## Model

| member | source | states |
|---|---|---|
| Bytes.Compare | fuzz_test.go:165 | bytes.Compare: the result is -1, 0 or 1, and 0 exactly when the two keys are equal |
| Bytes.CompareAntisymmetric | fuzz_test.go:165-170 | swapping the two keys negates the comparison, which is why swapping an inverted pair orders it |
| Bytes.LessTransitive | fuzz_test.go:165-170 | the key order is transitive |
| Bytes.PrefixIsLess | pointertrie.go:135-139 | a strict prefix of a key is below it, which is why pre-order visits a node before its descendants |
| Bytes.FirstDifference | pointertrie.go:157-178 | keys that agree up to a position and differ there are ordered by the byte at that position |
| Bytes.PadIsSuccessor | fuzz_test.go:166-167 | appending a 0x00 byte gives a key strictly above the original and no key lies strictly between them |
| Bytes.AscendingConcat | pointertrie.go:138 | two strictly ascending key sequences, every key of the first below every key of the second, concatenate to a strictly ascending sequence |
| Traversers.Walk | traversers.go:16-25 | the paths yielded to a consumer that takes all are non-empty and begin with the start path |
| Traversers.PreOrder | traversers.go:9-13 | preOrder's first yielded path is the one-element path of the root |
| Traversers.RecurseIsWalkPrefix | traversers.go:15-25 | against a consumer that accepts quota paths, exactly the first quota + 1 paths of the full walk are yielded (all of them if fewer) and adj is called exactly on the accepted ones; done is reported exactly when a yield was refused, so nothing is yielded or explored after the refusal |
| Traversers.RecurseAllIsWalkAllPrefix | traversers.go:20-24 | the same prefix and cancellation relation for the loop over one path's adjacent steps |
| Traversers.WalkExtends | traversers.go:20-21 | every yielded path extends the start path |
| Traversers.WalkAllExtends | traversers.go:20-21 | every path yielded under a step extends the path by that step |
| Traversers.WalkParentEarlier | traversers.go:16-24 | every yielded path after the first is an earlier-yielded path extended by one element that adj offers for it |
| Traversers.WalkBlock | traversers.go:16-24 | pre-order: the walk below any yielded path appears contiguously right after it, so one step's subtree finishes before the next step's begins |
| Traversers.WalkVisitsReachable | traversers.go:15-25 | a path is yielded if and only if adj generates it from the start path |
| Traversers.ReachableInWalk | traversers.go:15-25 | every path adj generates from the start is yielded |
| Traversers.WalkIndexReaches | traversers.go:15-25 | every yielded path is generated from the start by adj |
| Traversers.WalkDistinct | traversers.go:15-25 | when adj never offers the same step twice, every path is yielded exactly once |
| Traversers.WalkKeeps | traversers.go:16-24 | a property of paths that holds of the start and that every step adj offers keeps holds of every yielded path |
| PointerTrie.Node.Empty | pointertrie.go:17-20 | NewPointerTrie: a lone non-terminal root holding the zero value, a valid, compact and empty trie |
| PointerTrie.Node.Search | pointertrie.go:228-240 | search: a found index holds the byte; otherwise the insertion point, every child before it is below the byte and the child at it (if any) is above; over ascending children a miss means no child has the byte |
| PointerTrie.InsertAscending | pointertrie.go:42-44 | splicing a child with a new byte in at search's insertion point keeps the children strictly ascending |
| PointerTrie.RemoveAscending | pointertrie.go:117 | removing a child keeps the children strictly ascending |
| PointerTrie.NewChain | pointertrie.go:37-41 | the new branch is a chain of single-child non-terminal nodes for the key's remaining bytes ending in one terminal node holding the value |
| PointerTrie.Node.Get | pointertrie.go:60-77 | found exactly when the key is stored, with its value, and the zero value otherwise; nothing changes |
| PointerTrie.Node.AbsentBelow | pointertrie.go:66-69 | when the node at a prefix has no child for the next byte, no key through that byte is stored |
| PointerTrie.Node.Attach | pointertrie.go:42-44 | splicing the new chain in at search's insertion point keeps the trie valid and compact, keeps every old node, adds nodes only on the key's path, and adds exactly the new entry |
| PointerTrie.Node.Assign | pointertrie.go:49-57 | on the key's existing node: (previous value, true) exactly when the key was stored, else (zero, false); the entry becomes value, every other entry stays, and the trie stays valid and compact |
| PointerTrie.Node.Put | pointertrie.go:29-58 | existed exactly when the key was stored, prev is its old value or zero, the contents become the old contents with key mapped to value, the trie stays valid and compact, old nodes stay, and every new node is on the key's path |
| PointerTrie.PutThenGet | fuzz_test.go:129-135 | after Put(key, value), Get(key) returns (value, true) |
| PointerTrie.Node.ClearRoot | pointertrie.go:85-93 | Delete of the empty key only clears the root's flag and value, reporting the stored value, and never removes the root |
| PointerTrie.Node.Walk | pointertrie.go:96-108 | Delete's descent finds the key's node with the pruning anchor (the last terminal or branching node passed and the child index taken), or shows the key is not stored |
| PointerTrie.Node.Erase | pointertrie.go:110-119 | clearing a terminal node and cutting the dead chain below the anchor removes exactly the key, keeps the trie valid, and keeps a compact trie compact |
| PointerTrie.Node.Delete | pointertrie.go:79-120 | existed exactly when the key was stored, prev is its value or zero, the contents lose exactly the key, an absent key changes nothing, no node is added, the trie stays valid and a compact trie stays compact |
| PointerTrie.DeleteThenGet | fuzz_test.go:148-154 | after Delete(key), Get(key) returns (zero, false) |
| PointerTrie.Node.Snap | pointertrie.go:22-27 | the snapshot of a node carries the node's key byte, terminal flag and value, and as many children as the node |
| PointerTrie.Node.SnapChildrenAt | pointertrie.go:22-27 | the i-th child of a node's snapshot is the snapshot of the node's i-th child, which is the trie's node at the child's key |
| PointerTrie.Node.SnapSorted | pointertrie.go:22-27 | the snapshot of every node of a valid trie has strictly ascending children at every level |
| PointerTrie.Node.ForwardVisitsInTrie | pointertrie.go:136-139 | every node a forward Range visits is the trie's node at the visited key |
| PointerTrie.Node.ForwardVisitsWithin | pointertrie.go:157-178 | when childBounds admits the next byte at every prefix of keys within the bounds, a forward Range visits the node of every key within the bounds |
| PointerTrie.Node.ForwardSound | pointertrie.go:140-153 | every entry a forward Range yields is a stored key within the bounds with its stored value |
| PointerTrie.Node.ForwardAscending | pointertrie.go:135-153 | a forward Range yields keys in strictly ascending order |
| PointerTrie.Node.ForwardComplete | pointertrie.go:140-153 | when a key above the bounds has only keys above them after it and childBounds never prunes a key within them, a forward Range yields every stored entry within the bounds |
| PointerTrie.Node.RangeWithin | pointertrie.go:142-149 | every entry Range yields, in either direction, has Compare == 0 |
| PointerTrie.Node.RangeForward | pointertrie.go:135-153 | for forward bounds every entry Range yields is stored with its value, keys strictly ascend, and under coherent bounds every stored entry within them is yielded |
| PointerTrie.Node.Range | pointertrie.go:131-154 | Range: the selection the scan makes; all entries within the bounds; for forward bounds stored entries in strictly ascending order, and all stored entries within coherent bounds |
| TrieRange.ForwardChildAdj | pointertrie.go:157-178 | the loop with its early stop above stop returns exactly the children with bytes in start..stop in child order, none when !ok |
| TrieRange.ReverseChildAdj | pointertrie.go:181-203 | the backward loop with its early stop below stop returns exactly the children with bytes in stop..start in reverse child order, none when !ok |
| TrieRange.ForwardAdjYields | pointertrie.go:157-178 | forward adjacency: nothing when !ok; otherwise exactly the children with start <= keyByte <= stop, each under the key extended by its byte, ascending |
| TrieRange.ReverseAdjYields | pointertrie.go:181-203 | reverse adjacency: nothing when !ok; otherwise exactly the children with stop <= keyByte <= start, each under the key extended by its byte, descending |
| TrieRange.FirstAbove | pointertrie.go:142-148 | the scan's cut point: every visited key before it has Compare <= 0 and the key at it has Compare > 0 |
| TrieRange.Emit | pointertrie.go:140-153 | the loop over the visited paths yields the selection among the nodes before the first one above the bounds |
| TrieRange.SelectedMembers | pointertrie.go:142-151 | the selection holds an entry exactly for each visited terminal node within the bounds, with its key and value |
| TrieRange.SelectedAscending | pointertrie.go:149 | the selection keeps visiting order, so ascending visited keys give ascending yielded keys |
| TrieRange.SelectedComplete | pointertrie.go:142-148 | when visited keys ascend and a key above the bounds has only keys above them after it, stopping at the first key above loses no terminal node within the bounds |
| TrieRange.ForwardRanked | pointertrie.go:157-178 | every child the forward adjacency offers is smaller than its parent, so the forward walk is finite |
| TrieRange.ForwardVisits | pointertrie.go:133-138 | the forward scan visits the root first, under the empty key |
| TrieRange.WalkAscending | traversers.go:16-24 | a pre-order walk whose adjacency offers children in ascending byte order visits keys in strictly ascending order, all extending the start key |
| TrieRange.ForwardVisitsAscending | pointertrie.go:135-139 | the forward scan of a sorted trie visits keys in strictly ascending order |
| TrieRange.ForwardVisitsEndIn | pointertrie.go:136-139 | a node property given by key that holds at the root and that forward steps keep holds at every visited node |
| TrieRange.ForwardVisitsAlong | pointertrie.go:157-178 | when the forward adjacency offers each next node along a key, the scan visits the node at that key |
| FuzzInputs.KeySize | fuzz_test.go:61-66 | the documented size table, at most 4 bytes |
| FuzzInputs.KeyForFuzzInputs | fuzz_test.go:60-75 | the decrementing loop gives the tabled key size; the result is the last keySize bytes of the big-endian encoding, whose value is key mod 256^keySize, and the full encoding for size 4 |
| FuzzInputs.KeySuffixValue | fuzz_test.go:73-74 | the last n bytes of the big-endian encoding read big-endian are key mod 256^n |
| FuzzInputs.NormalizeRange | fuzz_test.go:165-170 | begin < end afterwards; an ordered pair is kept, an equal pair gets a 0x00 appended to end, an inverted pair is swapped so the set of the two keys is unchanged |
| FuzzInputs.PaddedEndIsLeast | fuzz_test.go:166-167 | end + [0x00] is the least key strictly above end |

## Left out

- The nil-key panic of Put, Get and Delete (pointertrie.go:30-32, 61-63, 80-82): a Dafny sequence cannot be nil.
- `String` and `printNode` (pointertrie.go:205-226) format text and are not modelled.
- `Bounds` (its constructors `From`, `To`, `DownTo`, its `Compare` and `childBounds` algorithms, and `Clone`), `postOrder`, `Clone` of the trie and the `BTrie` interface are not defined in the modelled files. `Compare` and `childBounds` are carried as functions. A `Bounds` is a value, so Range's defensive `Clone` is the identity.
- PointerTrie.Node.Range: for reverse bounds it states only that every entry is within the bounds and is the selection among postOrder's visits. Without postOrder's definition, neither stored entries nor descending order follows.
- PointerTrie.Node.Range: it is modelled on a value snapshot of the trie and returns the whole sequence. Laziness, a consumer that stops early, and mutation during iteration are not modelled. The cancellation behaviour of the traversal itself is modelled by `Traversers.Recurse`.
- PointerTrie.Node.ForwardComplete: completeness is stated under two assumptions about `Bounds`, because their algorithms are not part of this model. The assumptions are `AboveIsFinal` (once a key is above the bounds, so is every greater key) and `AdmitsWithin` (childBounds admits every prefix byte of a key within the bounds).
- PointerTrie.Node.Put: it does not state that the nodes it creates are fresh objects. It states instead that every new key lies on the key's path and that every new node is the terminal end of the chain or a single-child non-terminal node.
- Slice aliasing: the key slices built with `append(path.key, keyByte)` (pointertrie.go:172, 197), the volatile path slice of traversers.go:7-8, and the in-place `append`/`copy` splices of the children slices are modelled as sequence values that are reassigned. The `bytes.Clone` of yielded keys is therefore the identity.
- The value type `V` is restricted to types without heap references, because the traversal quantifies over paths of nodes. Pointer-valued `V` is not covered.
- bench_test.go, the randomised and time-seeded fixtures, and the `Fuzz*`/`TestBaseline` drivers (apart from the two helpers and the two Put/Get and Delete/Get checks above) are not modelled. Neither is the reference trie they compare against.
