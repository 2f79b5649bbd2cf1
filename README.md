# Keyed list reconciler

A Dafny model of the keyed list of views in `tachys` (`keyed_enumerate`). The
model covers how the list's retained state is built and mounted. It also covers
how each rebuild brings that state up to date with a new item list by applying
an edit script in seven fixed steps:

1. clear
2. removals that leave holes
3. move-out
4. resize
5. move-in, non-DOM moves first and then DOM moves
6. additions in `Normal` or `Append` mode
7. draining the holes

The retained state is the class `KeyedEnumerate.KeyedEnumerateState`. It holds
the parent element, the marker placeholder, the key set, and two parallel slot
vectors: the children's retained states and their index signals. Each index
signal is a `KeyedEnumerate.IndexSignal` object with one mutable `value`. The
host tree is one `HostTree.Element` whose ordered child nodes are a `seq<Node>`.
Mounting is the DOM's `insertBefore`, which first takes the node out of wherever
it is; unmounting is `remove`.

Modules:

- `Slots`: `Option`, and the `Vec<Option<_>>` operations `take` (`Punch`), `resize_with` (`Holes`) and `drain_filter` (`DropHoles`).
- `IndexSet`: the insertion-ordered key set `FxIndexSet`.
- `HostTree`: nodes, `insertBefore`, `remove`.
- `DiffOps`: the edit-script types `Diff`, `DiffOpRemove`, `DiffOpMove` and `DiffOpAdd`, and what the applier needs of a script.
- `SlotSteps`: each step of `apply_diff` as a function on one slot vector, with the facts each loop needs.
- `Pass`: where the whole pass leaves every slot when the script is applicable.
- `KeyedEnumerate`: the state, `build`, `rebuild`, `apply_diff` (one method per step) and the `Mountable` impl.

Parameters stand for code that is not part of this model:

- `diff`: the script computer.
- `unpack`: `unpack_moves`.
- `nextSibling`: `get_next_closest_mounted_sibling`.
- `viewFn`: `view_fn` followed by `build` of the view it returns, reduced to the id of the child's node.
- `keyFn`: `key_fn`.

Panics are results, not preconditions. An index out of range, an `unwrap` of a
hole, or the `expect` in `rebuild` gives `Panicked(reason)`.
`KeyedEnumerate.PassOutcome` says exactly which scripts panic and at which step.

A script that sets `clear`, adds items and also lists removals panics at its
first removal. The clear has emptied both vectors, and the removals index them
(keyed_enumerate.rs:349-364); see `KeyedEnumerate.ClearedRemovalPanics`.

The host tree after a whole pass is given by `KeyedEnumerate.EditsTree`. It is
built from `DomMovesTree` and `AddsTree`, which replay the DOM move-ins and the
additions one insertion at a time: each node goes in front of the closest
mounted sibling after its slot, or in front of the marker.

## Model

| member | source | states |
|---|---|---|
| IndexSet.Insert | tachys/src/view/keyed/keyed_enumerate.rs:91 | a new key goes last, a key already present leaves the set as it is |
| IndexSet.FromKeys | tachys/src/view/keyed/keyed_enumerate.rs:86-91 | the key set of a key sequence holds every key once and nothing else, and is no longer than the sequence |
| IndexSet.FromUniqueKeys | tachys/src/view/keyed/keyed_enumerate.rs:90-91 | with distinct keys the key set is the key sequence itself, so it has one entry per item |
| IndexSet.RepeatedKeyShrinks | tachys/src/view/keyed/keyed_enumerate.rs:90-91 | a repeated key makes the key set shorter than the item list |
| KeyedEnumerate.Build | tachys/src/view/keyed/keyed_enumerate.rs:83-103 | the new state is unmounted and satisfies `Valid` (equal lengths, no holes, distinct signals each holding its slot); child i is `view_fn(i, items[i])`; the key set is that of the items' keys, one per item when keys are distinct |
| KeyedEnumerate.BuildVectors | tachys/src/view/keyed/keyed_enumerate.rs:90-95 | the loop builds the key set, one child per item built with its index, and one fresh signal per item holding its index |
| KeyedEnumerate.InsertKey | tachys/src/view/keyed/keyed_enumerate.rs:91 | inserting the i-th key extends the key set of the first i items to that of the first i+1 |
| KeyedEnumerate.HashItems | tachys/src/view/keyed/keyed_enumerate.rs:118-122 | `rebuild`'s loop yields the new key set and every item in a filled slot of its own |
| KeyedEnumerate.KeyedEnumerateState.Rebuild | tachys/src/view/keyed/keyed_enumerate.rs:105-139 | an unmounted list panics and changes nothing; otherwise the outcome is `PassOutcome` of the script `diff` gives; on completion the key set is the new one, the marker is still mounted, no node is duplicated, and the tree is `EditsTree` of the old one (or every child unmounted for a clear with nothing to add); for an applicable script the state is `Valid` with one child per new item, laid out as `Reconciled` says, every signal not added is the one the moves carried there and added slots get fresh signals |
| KeyedEnumerate.KeyedEnumerateState.ApplyAndStore | tachys/src/view/keyed/keyed_enumerate.rs:125-138 | the mounted half of `rebuild`: the same guarantees for the script from the old keys to the given ones, and the new keys are kept exactly when the pass completes |
| KeyedEnumerate.ApplicableCompletes | tachys/src/view/keyed/keyed_enumerate.rs:361-440 | an applicable script never panics on a list without holes |
| KeyedEnumerate.ClearedRemovalPanics | tachys/src/view/keyed/keyed_enumerate.rs:349-364 | a script that clears, adds and removes panics at the first removal, because the removals index the emptied vectors |
| KeyedEnumerate.KeyedEnumerateState.ApplyDiff | tachys/src/view/keyed/keyed_enumerate.rs:329-445 | the outcome is `PassOutcome`; a clear with nothing to add leaves both vectors empty and every old child unmounted; otherwise on completion the tree is `EditsTree` of the tree step 1 left; for an applicable script the state is `Valid` again, the children are `Reconciled`, every signal not added is the one the moves carried there, added slots get fresh signals; the marker stays mounted and no node is duplicated |
| KeyedEnumerate.KeyedEnumerateState.ApplyEdits | tachys/src/view/keyed/keyed_enumerate.rs:361-444 | steps 2 to 7 on the vectors step 1 left: outcome as `EditsOutcome`, the tree as `EditsTree`, and for an applicable script `Valid`, the reconciled children and the signals' origin |
| KeyedEnumerate.KeyedEnumerateState.DrainPass | tachys/src/view/keyed/keyed_enumerate.rs:442-444 | draining after steps 2 to 6 of an applicable script leaves a `Valid` state whose children are `Reconciled` and whose signals are the moved or the added ones |
| KeyedEnumerate.KeyedEnumerateState.ApplyCommands | tachys/src/view/keyed/keyed_enumerate.rs:361-440 | steps 2 to 6: outcome as `EditsOutcome`; on completion the children are the moved vector with the additions filled in, the tree is `EditsTree` (removed children unmounted, then the DOM moves and the additions mounted in order), the signals stay distinct and each holds its slot when moves have distinct ends |
| KeyedEnumerate.AddRef | tachys/src/view/keyed/keyed_enumerate.rs:416-436 | an `Append` addition goes in front of the marker; the reference node is in the tree whenever the marker is |
| KeyedEnumerate.KeyedEnumerateState.ClearAll | tachys/src/view/keyed/keyed_enumerate.rs:349-355 | both vectors end empty and every child's node left the tree, in slot order |
| KeyedEnumerate.KeyedEnumerateState.RemoveAll | tachys/src/view/keyed/keyed_enumerate.rs:361-367 | the loop gets through iff every removal hits a filled slot not removed before; then both vectors have holes exactly at the removed slots and exactly the removed children were unmounted |
| KeyedEnumerate.KeyedEnumerateState.RemoveOne | tachys/src/view/keyed/keyed_enumerate.rs:362-366 | one removal succeeds iff its slot is in range and filled; it leaves a hole at `at` in both vectors and unmounts exactly that child |
| KeyedEnumerate.KeyedEnumerateState.MoveAll | tachys/src/view/keyed/keyed_enumerate.rs:371-412 | steps 3 to 5 get through iff `MovesFit`; both vectors become `AfterMoves` of the old ones; the tree is `DomMovesTree` run on the children the non-DOM moves left; with distinct sources and destinations every signal is distinct and holds its new slot; the marker stays and no node is duplicated |
| KeyedEnumerate.KeyedEnumerateState.MoveSlots | tachys/src/view/keyed/keyed_enumerate.rs:371-412 | the same slot and tree updates, and each collected signal now holds its move's destination |
| KeyedEnumerate.KeyedEnumerateState.MoveOut | tachys/src/view/keyed/keyed_enumerate.rs:371-376 | the move-out gets through iff every source is in range; every source slot is then a hole in both vectors, and the collected children and signals are what the source slots held, in move order |
| KeyedEnumerate.KeyedEnumerateState.MoveInPlace | tachys/src/view/keyed/keyed_enumerate.rs:381-390 | the non-DOM moves, in order, put each collected child and signal at its destination and set the signal to it; the host tree is outside the method's frame, so it is untouched |
| KeyedEnumerate.KeyedEnumerateState.PutBack | tachys/src/view/keyed/keyed_enumerate.rs:386-388 | one move-in writes slot `to` in both vectors and sets exactly that signal to `to` |
| KeyedEnumerate.KeyedEnumerateState.MoveInDom | tachys/src/view/keyed/keyed_enumerate.rs:391-412 | the DOM moves get through iff each took a child and lands in range; each is placed and its signal set to its destination; the tree is `DomMovesTree` of the old tree and children, gains exactly the moved nodes, keeps the marker and stays free of duplicates |
| KeyedEnumerate.KeyedEnumerateState.MoveNextInDom | tachys/src/view/keyed/keyed_enumerate.rs:391-411 | one DOM move carries the loop's facts from move k to move k+1: placement, signal values, mounted nodes, and the tree the remaining moves leave |
| KeyedEnumerate.NonDomStep | tachys/src/view/keyed/keyed_enumerate.rs:392-393 | a non-DOM move is skipped by the DOM loop: vectors, signal values, mounted nodes and tree are unchanged |
| KeyedEnumerate.KeyedEnumerateState.MoveOneInDom | tachys/src/view/keyed/keyed_enumerate.rs:396-411 | one DOM move mounts the child in front of the closest mounted sibling after `to` (else the marker), so the tree the remaining moves leave is unchanged; it then succeeds iff `to` is in range and fills slot `to` with it and its signal set to `to` |
| KeyedEnumerate.KeyedEnumerateState.MountBeforeSibling | tachys/src/view/keyed/keyed_enumerate.rs:398-407 | the child's node is inserted before the sibling's node when that is mounted, else before the marker; in a tree without duplicates it lands directly in front of that node |
| KeyedEnumerate.SiblingOrMarker | tachys/src/view/keyed/keyed_enumerate.rs:400-404 | the reference node is the marker or the mounted sibling, and it is in the tree whenever the marker is |
| KeyedEnumerate.KeyedEnumerateState.AddAll | tachys/src/view/keyed/keyed_enumerate.rs:414-440 | the additions get through iff each takes an item that is there and not taken yet and lands in range; then each added slot holds `view_fn(at, item)` and a fresh signal holding `at`; every other slot is unchanged; signals stay distinct and in place; the tree is `AddsTree` of the old tree and children |
| KeyedEnumerate.KeyedEnumerateState.AddNext | tachys/src/view/keyed/keyed_enumerate.rs:414-439 | one addition carries the loop's facts from addition k to k+1: items taken, children built, signals installed fresh, and the tree the remaining additions leave |
| KeyedEnumerate.KeyedEnumerateState.AddOne | tachys/src/view/keyed/keyed_enumerate.rs:415-439 | one addition succeeds iff its item is there and its slot in range; it takes the item, mounts the child in front of its `AddRef`, fills both slots at `at`, and its signal is fresh and holds `at`; the tree the remaining additions leave is unchanged |
| KeyedEnumerate.KeyedEnumerateState.BuildAndMount | tachys/src/view/keyed/keyed_enumerate.rs:416-436 | the child is `view_fn(at, item)` with a fresh signal holding `at`; `Append` mounts it before the marker, `Normal` before the closest mounted sibling or else the marker |
| KeyedEnumerate.KeyedEnumerateState.Install | tachys/src/view/keyed/keyed_enumerate.rs:438-439 | both slots at `at` are filled, and a signal not yet held keeps the signals distinct |
| KeyedEnumerate.KeyedEnumerateState.DrainHoles | tachys/src/view/keyed/keyed_enumerate.rs:442-444 | both vectors lose their holes; when both are filled exactly up to n this keeps their first n slots, and signals that were distinct and in place still are |
| KeyedEnumerate.SetSignal | tachys/src/view/keyed/keyed_enumerate.rs:388 | setting one of a vector's distinct signals changes that signal's value only |
| KeyedEnumerate.TakenOutCells | tachys/src/view/keyed/keyed_enumerate.rs:371-376 | the collected signals are distinct and come from source slots |
| KeyedEnumerate.NotTaken | tachys/src/view/keyed/keyed_enumerate.rs:371-376 | the signal of a slot that is no move's source is not collected |
| KeyedEnumerate.AfterMovesCells | tachys/src/view/keyed/keyed_enumerate.rs:371-412 | after moves with distinct ends, no two slots share a signal |
| KeyedEnumerate.PunchCells | tachys/src/view/keyed/keyed_enumerate.rs:361-362 | taking signals out keeps the rest distinct and each in its slot |
| KeyedEnumerate.PrefixCells | tachys/src/view/keyed/keyed_enumerate.rs:444 | the first n slots keep their signals distinct and in place |
| KeyedEnumerate.KeyedEnumerateState.Mount | tachys/src/view/keyed/keyed_enumerate.rs:306-312 | the list remembers the parent; every child's node and then the marker is inserted before `ref`, in slot order; when those nodes are distinct and `ref` is not one of them, they form one contiguous run directly before `ref` (at the end without one) and every other node keeps its order |
| KeyedEnumerate.MountNodes | tachys/src/view/keyed/keyed_enumerate.rs:308-311 | the nodes are inserted one after another, each before `ref` |
| KeyedEnumerate.MountAll | tachys/src/view/keyed/keyed_enumerate.rs:308-311 | the reference node stays in the tree, which holds exactly its old nodes and the mounted ones |
| KeyedEnumerate.MountAllPlaces | tachys/src/view/keyed/keyed_enumerate.rs:308-311 | mounting distinct nodes one after another before a reference node that is not among them equals taking them out and splicing them in as one run directly before it (`Spliced`) |
| KeyedEnumerate.SpliceStep | tachys/src/view/keyed/keyed_enumerate.rs:309-310 | one more `insertBefore(n, ref)` appends n to the run already in front of `ref` |
| KeyedEnumerate.ChildNodes | tachys/src/view/keyed/keyed_enumerate.rs:308 | the nodes of exactly the filled slots (`iter_mut().flatten()`) |
| KeyedEnumerate.KeyedEnumerateState.Unmount | tachys/src/view/keyed/keyed_enumerate.rs:314-319 | every child's node and then the marker leave the parent's tree |
| KeyedEnumerate.KeyedEnumerateState.InsertBeforeThis | tachys/src/view/keyed/keyed_enumerate.rs:321-326 | insertion happens iff the list is mounted and its first node (the first child, or the marker for an empty list) is in the tree; it then goes directly before that node, otherwise the tree is unchanged |
| SlotSteps.RemovalStep | tachys/src/view/keyed/keyed_enumerate.rs:361-367 | one more removal hits iff its slot is in range and still filled, and it adds that slot and its child to the removed ones |
| SlotSteps.MoveOutStep | tachys/src/view/keyed/keyed_enumerate.rs:373-376 | one more move-out empties its source and collects what is there |
| SlotSteps.TakenOutDistinct | tachys/src/view/keyed/keyed_enumerate.rs:373-376 | with distinct sources each move collects exactly its source's content |
| SlotSteps.PlaceFacts | tachys/src/view/keyed/keyed_enumerate.rs:381-412 | with distinct destinations each move of a kind leaves its child at its destination, and other slots keep their content |
| SlotSteps.AfterMovesFacts | tachys/src/view/keyed/keyed_enumerate.rs:371-412 | after steps 3 to 5 a destination holds its source's content, an untouched slot keeps its own, and every other slot, including the resized tail, is a hole |
| SlotSteps.SlotSource | tachys/src/view/keyed/keyed_enumerate.rs:371-412 | every filled slot after the moves holds the content of its move's source, or its own when no move touched it |
| SlotSteps.AddStep | tachys/src/view/keyed/keyed_enumerate.rs:414-415 | one more addition fits iff its item is there, not taken yet and its slot is in range |
| SlotSteps.AddedStep | tachys/src/view/keyed/keyed_enumerate.rs:438 | one more addition fills its slot with the built child |
| SlotSteps.AddBookkeeping | tachys/src/view/keyed/keyed_enumerate.rs:414-438 | one more addition fits iff its item is still there and its slot in range; it then moves taken items, filled slots and built children on by that slot |
| SlotSteps.InstalledStep | tachys/src/view/keyed/keyed_enumerate.rs:439 | one more installed signal fills exactly its slot |
| SlotSteps.RetargetStep | tachys/src/view/keyed/keyed_enumerate.rs:386-410 | one more move of a loop sets only the signal it took to its destination |
| SlotSteps.InPlaceMoved | tachys/src/view/keyed/keyed_enumerate.rs:371-390 | move-out, resize and the non-DOM move-ins lengthen the vector by the added holes |
| Pass.PassFits | tachys/src/view/keyed/keyed_enumerate.rs:361-440 | an applicable script's removals hit, its moves fit and its additions fit |
| Pass.MovedSlots | tachys/src/view/keyed/keyed_enumerate.rs:371-412 | after the moves of an applicable script a kept slot holds its old content, a destination its source's, and every other slot is a hole |
| Pass.DrainedPrefix | tachys/src/view/keyed/keyed_enumerate.rs:442-444 | after the additions the first `len(items)` slots are filled and the rest are holes, so draining keeps exactly those slots in place |
| Pass.ReconciledSlots | tachys/src/view/keyed/keyed_enumerate.rs:329-445 | the reconciled children have one filled slot per new item; kept children stay, moved children land at their destinations, added views sit at their slots |
| Slots.DropHoles | tachys/src/view/keyed/keyed_enumerate.rs:443 | the result has no holes, is no longer than the input and holds only its entries |
| Slots.DropHolesAppend | tachys/src/view/keyed/keyed_enumerate.rs:443-444 | draining works piecewise, so filled slots keep their relative order |
| Slots.DropHolesOfFilled | tachys/src/view/keyed/keyed_enumerate.rs:443 | a vector without holes is left as it is |
| Slots.DropHolesOfEmptied | tachys/src/view/keyed/keyed_enumerate.rs:443 | a vector of holes only is emptied |
| Slots.DropHolesOfFilledPrefix | tachys/src/view/keyed/keyed_enumerate.rs:442-444 | filled up to n and holes after: draining keeps the first n slots |
| HostTree.MountBeforePlaces | tachys/src/view/keyed/keyed_enumerate.rs:406 | after `insertBefore(n, ref)` the tree has no duplicates, holds n once, directly before `ref` (last without one), and the other nodes keep their order |
| HostTree.DetachAllKeepsDistinct | tachys/src/view/keyed/keyed_enumerate.rs:352-354 | unmounting children never duplicates a node |
| KeyedEnumerate.SiblingPlaces | tachys/src/view/keyed/keyed_enumerate.rs:400-404 | inserting before a mounted reference keeps the marker mounted and, without duplicates, lands directly before it |

## Left out

- `diff`, `unpack_moves` and `get_next_closest_mounted_sibling` are not part of this model. They are parameters, and `DiffOps.Applicable` states what the pass relies on of their output. The pass itself is modelled for every script, including scripts that panic.
- Server-side rendering and async paths (`resolve`, `to_html_with_buf`, `to_html_async_with_buf`, `dry_resolve`) only delegate to child views.
- `hydrate` relies on the hydration cursor and on renderer calls.
- `AddAnyAttr` only wraps closures at the type level.
- The `Callback` wrapper and the tracing-property macros have no logic of their own.
- `ArcWriteSignal`: `set` is a plain write. Subscribers and reactivity are not modelled.
- `view_fn` is a pure function of the index and the item giving the child's id. The signal it returns is modelled as a fresh cell holding the index.
- `Rndr::create_placeholder` in `build` is modelled by passing the marker node in.
- A child's retained state is reduced to one host node. Child views that own several nodes are not modelled.
- The list mounts into one host element. `HostTree.Element` has no notion of other trees.
- KeyedEnumerate.KeyedEnumerateState.Rebuild: after a panic the state is left unspecified, because the pass aborts mid-way. Its layout guarantees are stated only for scripts that satisfy `Applicable`.
- KeyedEnumerate.KeyedEnumerateState.Rebuild, ApplyDiff, ApplyEdits, ApplyCommands, MoveAll, MoveSlots, MoveInDom and AddAll require the marker to be mounted in the parent: the renderer's `insertBefore` against a detached reference node is not modelled, so a rebuild after `unmount` is outside the model.
- KeyedEnumerate.KeyedEnumerateState.ApplyDiff: the host tree after a pass that panics is not stated.
- KeyedEnumerate.KeyedEnumerateState.MoveAll: signal distinctness and position are stated only for moves with distinct sources and destinations.
- KeyedEnumerate.KeyedEnumerateState.MoveInPlace: `moved_children[i].take()` also empties the local vector. The model reads that vector without emptying it, since nothing reads it again.
