/** The edit script a reconciliation pass applies (`Diff` and its op types),
    and what the applier needs of it. The script itself is computed by `diff`
    and `unpack_moves`, which this model takes as given. */
module DiffOps {

  import opened Slots

  datatype DiffOpRemove = DiffOpRemove(at: nat)

  /** Move the child at `from` to `to`; `moveInDom` says whether its node must be relocated. */
  datatype DiffOpMove = DiffOpMove(from: nat, to: nat, moveInDom: bool)

  datatype DiffOpAddMode = Normal | Append

  datatype DiffOpAdd = DiffOpAdd(at: nat, mode: DiffOpAddMode)

  datatype Diff = Diff(removed: seq<DiffOpRemove>, moved: seq<DiffOpMove>, added: seq<DiffOpAdd>, clear: bool)

  /** What `unpack_moves` returns: the move commands and the add commands, in order. */
  datatype Unpacked = Unpacked(moves: seq<DiffOpMove>, adds: seq<DiffOpAdd>)

  function RemovedSlots(removed: seq<DiffOpRemove>): set<nat>
  {
    set k | 0 <= k < |removed| :: removed[k].at
  }

  function Froms(moves: seq<DiffOpMove>): set<nat>
  {
    set k | 0 <= k < |moves| :: moves[k].from
  }

  function Tos(moves: seq<DiffOpMove>): set<nat>
  {
    set k | 0 <= k < |moves| :: moves[k].to
  }

  function Ats(adds: seq<DiffOpAdd>): set<nat>
  {
    set k | 0 <= k < |adds| :: adds[k].at
  }

  /** Every removal hits a filled slot that no earlier removal took: exactly when
      the removal loop gets through without an index or `unwrap` panic. */
  predicate RemovalsHit<X>(children: seq<Option<X>>, removed: seq<DiffOpRemove>)
  {
    forall k :: 0 <= k < |removed| ==>
      && removed[k].at < |children|
      && children[removed[k].at].Some?
      && forall j :: 0 <= j < k ==> removed[j].at != removed[k].at
  }

  /** The length the slot vectors have once step 1 has run. */
  function BaseLength(d: Diff, len: nat): nat
  {
    if d.clear then 0 else len
  }

  /** A slot the script leaves where it is: neither removed nor moved out. */
  predicate Kept(d: Diff, u: Unpacked, len: nat, i: nat)
  {
    i < BaseLength(d, len) && i !in RemovedSlots(d.removed) && i !in Froms(u.moves)
  }

  /** What the applier relies on when it is handed a script for a list of `len`
      children and the new items: removals and move sources are distinct slots
      of the old list, move destinations and additions are distinct slots of
      the resized list, and kept slots, destinations and additions fill the
      first `|items|` slots exactly once and nothing beyond them. */
  predicate Applicable<T>(d: Diff, u: Unpacked, len: nat, items: seq<Option<T>>)
  {
    if d.clear && d.added == [] then
      items == []
    else
      var base := BaseLength(d, len);
      var size := base + |d.added|;
      && (forall k :: 0 <= k < |d.removed| ==> d.removed[k].at < base)
      && (forall j, k :: 0 <= j < k < |d.removed| ==> d.removed[j].at != d.removed[k].at)
      && (forall k :: 0 <= k < |u.moves| ==>
            u.moves[k].from < base && u.moves[k].from !in RemovedSlots(d.removed) && u.moves[k].to < size)
      && DistinctEnds(u.moves)
      && (forall k :: 0 <= k < |u.adds| ==>
            u.adds[k].at < size && u.adds[k].at < |items| && items[u.adds[k].at].Some?)
      && (forall j, k :: 0 <= j < k < |u.adds| ==> u.adds[j].at != u.adds[k].at)
      && |items| <= size
      && (forall i :: i in Tos(u.moves) ==> i !in Ats(u.adds))
      && (forall i :: 0 <= i < size ==>
            (Kept(d, u, len, i) || i in Tos(u.moves) || i in Ats(u.adds)) == (i < |items|))
      && (forall i :: 0 <= i < base && Kept(d, u, len, i) ==> i !in Tos(u.moves) && i !in Ats(u.adds))
  }

  /** The destinations of the moves whose `moveInDom` is `inDom`. */
  function TosWhere(moves: seq<DiffOpMove>, inDom: bool): set<nat>
  {
    set k | 0 <= k < |moves| && moves[k].moveInDom == inDom :: moves[k].to
  }

  /** No two moves share a source or a destination. */
  predicate DistinctEnds(moves: seq<DiffOpMove>)
  {
    forall j, k :: 0 <= j < k < |moves| ==> moves[j].from != moves[k].from && moves[j].to != moves[k].to
  }

  /** No two moves share a destination. */
  predicate DistinctTos(moves: seq<DiffOpMove>)
  {
    forall j, k :: 0 <= j < k < |moves| ==> moves[j].to != moves[k].to
  }

  /** Every addition takes an item that is there and not yet taken, and lands in a
      slot of the resized vectors: exactly when the addition loop gets through
      without an index or `unwrap` panic. */
  predicate AddsFit<T>(adds: seq<DiffOpAdd>, items: seq<Option<T>>, len: nat)
  {
    forall k :: 0 <= k < |adds| ==>
      && adds[k].at < |items|
      && items[adds[k].at].Some?
      && adds[k].at !in Ats(adds[..k])
      && adds[k].at < len
  }
}
