/**
 * A team's shared solution (src/services/solution_service.rs): stamping a
 * batch of edits with their author, merging it into the stored solution
 * square by square, writing the result back, and reading it for a newcomer.
 * The database is a map from (crossword id, team id) to the stored item list.
 */
module SolutionService {
  import opened Wrappers
  import opened Errors
  import opened ApiModels

  /** A grid square (x, y). */
  type Position = (int, int)

  /** The key of a stored solution: (crossword id, team id). */
  type RoomKey = (string, string)

  /** A stored edit: the square, the letter written there, and who wrote it last. */
  datatype SolutionItem = SolutionItem(x: int, y: int, value: string, modifiedBy: string)

  function PositionOf(item: SolutionItem): Position {
    (item.x, item.y)
  }

  function ToDto(item: SolutionItem): SolutionItemDto {
    SolutionItemDto(item.x, item.y, item.value)
  }

  /** The first `map` of `update_solution`: every incoming edit is attributed to the sender. */
  function Stamp(items: seq<SolutionItemDto>, userId: string): (r: seq<SolutionItem>)
    ensures |r| == |items|
    ensures forall i :: 0 <= i < |r| ==> r[i].modifiedBy == userId && ToDto(r[i]) == items[i]
  {
    seq(|items|, i requires 0 <= i < |items| => SolutionItem(items[i].x, items[i].y, items[i].value, userId))
  }

  /** Every item is stored under its own position. */
  ghost predicate KeyedByPosition(m: map<Position, SolutionItem>) {
    forall p :: p in m ==> PositionOf(m[p]) == p
  }

  /** No two items of the list share a position. */
  ghost predicate PositionsDistinct(items: seq<SolutionItem>) {
    forall i, j :: 0 <= i < j < |items| ==> PositionOf(items[i]) != PositionOf(items[j])
  }

  /**
   * The `collect` of the stored items into a map keyed by position; of two
   * items at one position the later one is kept.
   */
  function ToPositionMap(items: seq<SolutionItem>): (m: map<Position, SolutionItem>)
    ensures KeyedByPosition(m)
    ensures m.Keys == set i | 0 <= i < |items| :: PositionOf(items[i])
  {
    if items == [] then map[]
    else
      var last := items[|items| - 1];
      var m := ToPositionMap(items[..|items| - 1]);
      assert forall i :: 0 <= i < |items| - 1 ==> items[..|items| - 1][i] == items[i];
      m[PositionOf(last) := last]
  }

  /**
   * The map holds the list's own items: under each position the last item of
   * the list at that position, as `collect` into a hash map keeps it.
   */
  lemma {:induction false} ToPositionMapLastItem(items: seq<SolutionItem>)
    ensures forall p :: p in ToPositionMap(items) ==>
              exists i :: 0 <= i < |items| && items[i] == ToPositionMap(items)[p] && LastAt(items, i)
  {
    if items != [] {
      var n := |items| - 1;
      var prefix := items[..n];
      ToPositionMapLastItem(prefix);
      var m := ToPositionMap(items);
      forall p | p in m
        ensures exists i :: 0 <= i < |items| && items[i] == m[p] && LastAt(items, i)
      {
        if p == PositionOf(items[n]) {
          assert items[n] == m[p] && LastAt(items, n);
        } else {
          var mPrefix := ToPositionMap(prefix);
          assert m == mPrefix[PositionOf(items[n]) := items[n]];
          assert p in mPrefix && m[p] == mPrefix[p];
          var i :| 0 <= i < |prefix| && prefix[i] == mPrefix[p] && LastAt(prefix, i);
          assert items[i] == prefix[i];
          assert PositionOf(items[i]) == p;
          forall j | i < j < |items| ensures PositionOf(items[j]) != PositionOf(items[i]) {
            if j < n {
              assert items[j] == prefix[j];
            }
          }
        }
      }
    }
  }

  /** No later item of the list shares the position of item `i`. */
  ghost predicate LastAt(items: seq<SolutionItem>, i: int)
    requires 0 <= i < |items|
  {
    forall j :: i < j < |items| ==> PositionOf(items[j]) != PositionOf(items[i])
  }

  /** For a list with one item per position, every item is found under its own position. */
  lemma {:induction false} ToPositionMapDistinct(items: seq<SolutionItem>)
    requires PositionsDistinct(items)
    ensures forall i :: 0 <= i < |items| ==> ToPositionMap(items)[PositionOf(items[i])] == items[i]
  {
    if items != [] {
      var n := |items| - 1;
      var prefix := items[..n];
      ToPositionMapDistinct(prefix);
      forall i | 0 <= i < n
        ensures ToPositionMap(items)[PositionOf(items[i])] == items[i]
      {
        assert prefix[i] == items[i];
      }
    }
  }

  /**
   * One pass of the merge loop: the edit is written when its square holds no
   * item or an item with a different letter; otherwise the stored item, with
   * its author, stays.
   */
  function ApplyEdit(m: map<Position, SolutionItem>, item: SolutionItem): (r: map<Position, SolutionItem>)
    ensures r.Keys == m.Keys + {PositionOf(item)}
    ensures forall p :: p in m && p != PositionOf(item) ==> r[p] == m[p]
    ensures r[PositionOf(item)].value == item.value
    ensures PositionOf(item) !in m || m[PositionOf(item)].value != item.value ==> r[PositionOf(item)] == item
    ensures PositionOf(item) in m && m[PositionOf(item)].value == item.value ==> r == m
  {
    var position := PositionOf(item);
    if position !in m then m[position := item]
    else if m[position].value != item.value then m[position := item]
    else m
  }

  /** The whole merge loop: the edits applied in batch order. */
  function Merge(m: map<Position, SolutionItem>, items: seq<SolutionItem>): (r: map<Position, SolutionItem>)
    ensures KeyedByPosition(m) ==> KeyedByPosition(r)
    ensures r.Keys == m.Keys + set i | 0 <= i < |items| :: PositionOf(items[i])
  {
    if items == [] then m
    else
      var prefix := items[..|items| - 1];
      assert items == prefix + [items[|items| - 1]];
      PositionsSnoc(prefix, items[|items| - 1]);
      ApplyEdit(Merge(m, prefix), items[|items| - 1])
  }

  /** The positions of a non-empty batch are those of all but its last edit, plus the last edit's. */
  lemma PositionsSnoc(prefix: seq<SolutionItem>, last: SolutionItem)
    ensures var items := prefix + [last];
            (set i | 0 <= i < |items| :: PositionOf(items[i]))
            == (set i | 0 <= i < |prefix| :: PositionOf(prefix[i])) + {PositionOf(last)}
  {
    var items := prefix + [last];
    assert forall i :: 0 <= i < |prefix| ==> items[i] == prefix[i];
    assert items[|prefix|] == last;
  }

  /**
   * `update_solution`'s loop over the stamped edits, starting from the stored
   * items keyed by position.
   */
  method MergeIntoPositions(current: seq<SolutionItem>, newItems: seq<SolutionItem>)
    returns (positionToItem: map<Position, SolutionItem>)
    ensures positionToItem == Merge(ToPositionMap(current), newItems)
  {
    positionToItem := ToPositionMap(current);
    for i := 0 to |newItems|
      invariant positionToItem == Merge(ToPositionMap(current), newItems[..i])
    {
      var solutionItem := newItems[i];
      var position := PositionOf(solutionItem);
      if position !in positionToItem {
        positionToItem := positionToItem[position := solutionItem];
      } else if positionToItem[position].value != solutionItem.value {
        positionToItem := positionToItem[position := solutionItem];
      }
      assert newItems[..i + 1][..i] == newItems[..i];
    }
    assert newItems[..|newItems|] == newItems;
  }

  /**
   * `into_values().collect()`: the merged items as a list, in an order the
   * hash map chooses, one item per position.
   */
  method IntoValues(positionToItem: map<Position, SolutionItem>) returns (items: seq<SolutionItem>)
    requires KeyedByPosition(positionToItem)
    ensures ToPositionMap(items) == positionToItem
    ensures |items| == |positionToItem|
    ensures PositionsDistinct(items)
  {
    items := [];
    var rest := positionToItem;
    while rest != map[]
      invariant rest.Keys <= positionToItem.Keys
      invariant forall p :: p in rest ==> rest[p] == positionToItem[p]
      invariant ToPositionMap(items) == positionToItem - rest.Keys
      invariant |items| + |rest| == |positionToItem|
      invariant forall i :: 0 <= i < |items| ==> PositionOf(items[i]) !in rest
      invariant PositionsDistinct(items)
      decreases |rest|
    {
      var p :| p in rest;
      var item := rest[p];
      assert (items + [item])[..|items|] == items;
      items := items + [item];
      var done := positionToItem - rest.Keys;
      assert positionToItem - (rest.Keys - {p}) == done[p := item];
      assert |rest - {p}| == |rest| - 1 by {
        assert (rest - {p}).Keys == rest.Keys - {p};
      }
      rest := rest - {p};
    }
    assert positionToItem - {} == positionToItem;
  }

  // ---------------------------------------------------------------------------
  // The merge, square by square
  // ---------------------------------------------------------------------------

  function Get(m: map<Position, SolutionItem>, p: Position): Option<SolutionItem> {
    if p in m then Some(m[p]) else None
  }

  /** The edits of a batch that touch square `p`, in batch order. */
  function ItemsAt(items: seq<SolutionItem>, p: Position): (r: seq<SolutionItem>)
    ensures forall x :: x in r ==> x in items && PositionOf(x) == p
  {
    if items == [] then []
    else
      var last := items[|items| - 1];
      ItemsAt(items[..|items| - 1], p) + (if PositionOf(last) == p then [last] else [])
  }

  /** The merge rule on one square. */
  function ApplyToCell(current: Option<SolutionItem>, item: SolutionItem): (r: Option<SolutionItem>)
    ensures r.Some? && r.value.value == item.value
    ensures current.None? || current.value.value != item.value ==> r == Some(item)
    ensures current.Some? && current.value.value == item.value ==> r == current
  {
    if current.None? || current.value.value != item.value then Some(item) else current
  }

  /** The merge rule applied to one square's edits in order. */
  function CellFold(current: Option<SolutionItem>, items: seq<SolutionItem>): Option<SolutionItem> {
    if items == [] then current
    else ApplyToCell(CellFold(current, items[..|items| - 1]), items[|items| - 1])
  }

  /** The merge acts on each square separately: a square sees only the edits addressed to it. */
  lemma {:induction false} MergeAt(m: map<Position, SolutionItem>, items: seq<SolutionItem>, p: Position)
    ensures Get(Merge(m, items), p) == CellFold(Get(m, p), ItemsAt(items, p))
  {
    if items != [] {
      var prefix, last := items[..|items| - 1], items[|items| - 1];
      MergeAt(m, prefix, p);
      var before := ItemsAt(prefix, p);
      if PositionOf(last) == p {
        assert (before + [last])[..|before|] == before;
      } else {
        assert before + [] == before;
      }
    }
  }

  lemma {:induction false} ItemsAtNone(items: seq<SolutionItem>, p: Position)
    requires forall i :: 0 <= i < |items| ==> PositionOf(items[i]) != p
    ensures ItemsAt(items, p) == []
  {
    if items != [] {
      ItemsAtNone(items[..|items| - 1], p);
    }
  }

  lemma {:induction false} ItemsAtLast(items: seq<SolutionItem>, p: Position, i: nat)
    requires i < |items| && PositionOf(items[i]) == p
    requires forall j :: i < j < |items| ==> PositionOf(items[j]) != p
    ensures ItemsAt(items, p) != [] && ItemsAt(items, p)[|ItemsAt(items, p)| - 1] == items[i]
  {
    if i < |items| - 1 {
      ItemsAtLast(items[..|items| - 1], p, i);
    }
  }

  /** After any non-empty run of edits the square holds the letter of the last one. */
  lemma CellFoldLastValue(current: Option<SolutionItem>, items: seq<SolutionItem>)
    requires items != []
    ensures CellFold(current, items).Some?
    ensures CellFold(current, items).value.value == items[|items| - 1].value
  {
  }

  /** Edits that repeat the stored letter leave the stored item, author included, in place. */
  lemma {:induction false} CellFoldKeepsEqual(current: Option<SolutionItem>, items: seq<SolutionItem>)
    requires current.Some?
    requires forall i :: 0 <= i < |items| ==> items[i].value == current.value.value
    ensures CellFold(current, items) == current
  {
    if items != [] {
      CellFoldKeepsEqual(current, items[..|items| - 1]);
    }
  }

  /** All the edits are for square `p` and come from user `userId`: they differ at most in their letter. */
  ghost predicate AllFrom(items: seq<SolutionItem>, p: Position, userId: string) {
    forall i :: 0 <= i < |items| ==> PositionOf(items[i]) == p && items[i].modifiedBy == userId
  }

  /**
   * On one square, one sender's edits leave the stored item when every one of
   * them repeats its letter, and otherwise the last edit.
   */
  lemma {:induction false} CellFoldOneSender(current: Option<SolutionItem>, items: seq<SolutionItem>, p: Position, userId: string)
    requires AllFrom(items, p, userId)
    ensures CellFold(current, items) ==
            if items == [] then current
            else if current.Some? && forall i :: 0 <= i < |items| ==> items[i].value == current.value.value then current
            else Some(items[|items| - 1])
  {
    if items != [] {
      var prefix, last := items[..|items| - 1], items[|items| - 1];
      CellFoldOneSender(current, prefix, p, userId);
      if prefix != [] {
        var previous := prefix[|prefix| - 1];
        assert previous.value == last.value ==> previous == last;
      }
    }
  }

  /** On one square, applying one sender's edits a second time changes nothing. */
  lemma CellFoldIdempotent(current: Option<SolutionItem>, items: seq<SolutionItem>, p: Position, userId: string)
    requires AllFrom(items, p, userId)
    ensures CellFold(CellFold(current, items), items) == CellFold(current, items)
  {
    CellFoldOneSender(current, items, p, userId);
    CellFoldOneSender(CellFold(current, items), items, p, userId);
  }

  lemma MapsEqualByGet(m1: map<Position, SolutionItem>, m2: map<Position, SolutionItem>)
    requires forall p :: Get(m1, p) == Get(m2, p)
    ensures m1 == m2
  {
    assert m1.Keys == m2.Keys by {
      forall p ensures p in m1 <==> p in m2 {
        assert Get(m1, p).Some? <==> Get(m2, p).Some?;
      }
    }
    forall p | p in m1 ensures m1[p] == m2[p] {
      assert Get(m1, p) == Get(m2, p);
    }
  }

  /** Squares the batch does not touch keep their item, or stay empty. */
  lemma MergeUntouched(m: map<Position, SolutionItem>, items: seq<SolutionItem>, p: Position)
    requires forall i :: 0 <= i < |items| ==> PositionOf(items[i]) != p
    ensures p in Merge(m, items) <==> p in m
    ensures p in m ==> Merge(m, items)[p] == m[p]
  {
    MergeAt(m, items, p);
    ItemsAtNone(items, p);
  }

  /** Each square the batch touches ends with the letter of the batch's last edit there. */
  lemma MergeLastWriterWins(m: map<Position, SolutionItem>, items: seq<SolutionItem>, i: nat)
    requires i < |items|
    requires forall j :: i < j < |items| ==> PositionOf(items[j]) != PositionOf(items[i])
    ensures PositionOf(items[i]) in Merge(m, items)
    ensures Merge(m, items)[PositionOf(items[i])].value == items[i].value
  {
    var p := PositionOf(items[i]);
    MergeAt(m, items, p);
    ItemsAtLast(items, p, i);
    CellFoldLastValue(Get(m, p), ItemsAt(items, p));
  }

  /** A square whose edits all repeat the stored letter keeps the stored item, author included. */
  lemma MergeKeepsRepeatedLetter(m: map<Position, SolutionItem>, items: seq<SolutionItem>, p: Position)
    requires p in m
    requires forall i :: 0 <= i < |items| && PositionOf(items[i]) == p ==> items[i].value == m[p].value
    ensures p in Merge(m, items) && Merge(m, items)[p] == m[p]
  {
    MergeAt(m, items, p);
    var here := ItemsAt(items, p);
    forall j | 0 <= j < |here| ensures here[j].value == m[p].value {
      assert here[j] in here;
    }
    CellFoldKeepsEqual(Get(m, p), here);
  }

  /**
   * A later batch that does not touch a square leaves there the letter the
   * earlier batch wrote: concurrent edits to different squares both survive.
   */
  lemma MergeKeepsEarlierBatch(m: map<Position, SolutionItem>, first: seq<SolutionItem>, second: seq<SolutionItem>, i: nat)
    requires i < |first|
    requires forall j :: i < j < |first| ==> PositionOf(first[j]) != PositionOf(first[i])
    requires forall j :: 0 <= j < |second| ==> PositionOf(second[j]) != PositionOf(first[i])
    ensures PositionOf(first[i]) in Merge(Merge(m, first), second)
    ensures Merge(Merge(m, first), second)[PositionOf(first[i])].value == first[i].value
  {
    MergeLastWriterWins(m, first, i);
    MergeUntouched(Merge(m, first), second, PositionOf(first[i]));
  }

  /** Merging one sender's batch a second time into the result changes nothing. */
  lemma MergeIdempotent(m: map<Position, SolutionItem>, batch: seq<SolutionItemDto>, userId: string)
    ensures Merge(Merge(m, Stamp(batch, userId)), Stamp(batch, userId)) == Merge(m, Stamp(batch, userId))
  {
    var items := Stamp(batch, userId);
    var once := Merge(m, items);
    forall p ensures Get(Merge(once, items), p) == Get(once, p) {
      var here := ItemsAt(items, p);
      forall j | 0 <= j < |here| ensures PositionOf(here[j]) == p && here[j].modifiedBy == userId {
        assert here[j] in here;
      }
      MergeAt(once, items, p);
      MergeAt(m, items, p);
      CellFoldIdempotent(Get(m, p), here, p, userId);
    }
    MapsEqualByGet(Merge(once, items), once);
  }

  // ---------------------------------------------------------------------------
  // The store and the service operations
  // ---------------------------------------------------------------------------

  /** The solution table: one item list per (crossword id, team id). */
  class SolutionStore {
    var solutions: map<RoomKey, seq<SolutionItem>>

    constructor ()
      ensures solutions == map[]
    {
      solutions := map[];
    }

    /**
     * `get_solution`; `fault` is the message of a failure of the pool, the
     * query or the decoding, each of which becomes an internal error.
     */
    method GetSolution(crosswordId: string, teamId: string, fault: Option<string>)
      returns (r: Result<Option<seq<SolutionItem>>, AppError>)
      ensures fault.Some? ==> r == Err(InternalServerError(fault.value))
      ensures fault.None? && (crosswordId, teamId) in solutions ==> r == Ok(Some(solutions[(crosswordId, teamId)]))
      ensures fault.None? && (crosswordId, teamId) !in solutions ==> r == Ok(None)
    {
      if fault.Some? {
        return Err(InternalServerError(fault.value));
      }
      var key := (crosswordId, teamId);
      r := Ok(if key in solutions then Some(solutions[key]) else None);
    }

    /**
     * `store_or_update_solution`: the item list replaces whatever was stored
     * under the key; `fault` is the message of a failure, which becomes an
     * internal error.
     */
    method StoreOrUpdateSolution(crosswordId: string, teamId: string, items: seq<SolutionItem>, fault: Option<string>)
      returns (r: Result<nat, AppError>)
      modifies this
      ensures fault.Some? ==> r == Err(InternalServerError(fault.value)) && solutions == old(solutions)
      ensures fault.None? ==> r == Ok(1) && solutions == old(solutions)[(crosswordId, teamId) := items]
    {
      if fault.Some? {
        return Err(InternalServerError(fault.value));
      }
      solutions := solutions[(crosswordId, teamId) := items];
      r := Ok(1);
    }
  }

  /** What `unwrap_or(Vec::new())` makes of a stored solution: a missing one is the empty list. */
  function StoredOrEmpty(solutions: map<RoomKey, seq<SolutionItem>>, key: RoomKey): (items: seq<SolutionItem>)
    ensures key !in solutions ==> items == []
    ensures key in solutions ==> items == solutions[key]
  {
    if key in solutions then solutions[key] else []
  }

  /**
   * `after` is `before` with the solution under `key` replaced by the merge of
   * `batch` into it, one item per square, and every other solution untouched.
   */
  ghost predicate MergedInto(before: map<RoomKey, seq<SolutionItem>>, after: map<RoomKey, seq<SolutionItem>>,
                             key: RoomKey, batch: seq<SolutionItem>) {
    && key in after
    && ToPositionMap(after[key]) == Merge(ToPositionMap(StoredOrEmpty(before, key)), batch)
    && PositionsDistinct(after[key])
    && after - {key} == before - {key}
  }

  lemma ReplaceKeepsOthers(m: map<RoomKey, seq<SolutionItem>>, key: RoomKey, items: seq<SolutionItem>)
    ensures m[key := items] - {key} == m - {key}
  {
    assert (m[key := items] - {key}).Keys == (m - {key}).Keys;
  }

  /**
   * `update_solution`. `readFault` and `writeFault` are the messages of
   * failures of the read and of the write. The merged solution is written back whenever both
   * succeed, also when the batch changed nothing.
   */
  method UpdateSolution(store: SolutionStore, solutionItemsApi: seq<SolutionItemDto>, userId: string,
                        teamId: string, crosswordId: string, readFault: Option<string>, writeFault: Option<string>)
    returns (r: Result<string, AppError>)
    modifies store
    ensures readFault.Some? ==> r == Err(InternalServerError(readFault.value)) && store.solutions == old(store.solutions)
    ensures readFault.None? && writeFault.Some? ==> r == Err(InternalServerError(writeFault.value)) && store.solutions == old(store.solutions)
    ensures readFault.None? && writeFault.None? ==>
              r == Ok("Success")
              && MergedInto(old(store.solutions), store.solutions, (crosswordId, teamId), Stamp(solutionItemsApi, userId))
  {
    var newSolutionItems := Stamp(solutionItemsApi, userId);
    var stored := store.GetSolution(crosswordId, teamId, readFault);
    if stored.Err? {
      return Err(stored.error);
    }
    var currentSolutionItems := if stored.value.Some? then stored.value.value else [];
    var positionToItem := MergeIntoPositions(currentSolutionItems, newSolutionItems);
    var items := IntoValues(positionToItem);
    ghost var before := store.solutions;
    var written := store.StoreOrUpdateSolution(crosswordId, teamId, items, writeFault);
    if written.Err? {
      return Err(written.error);
    }
    ReplaceKeepsOthers(before, (crosswordId, teamId), items);
    r := Ok("Success");
  }

  /**
   * The reply sent for a stored item list: its JSON text, or an internal error
   * carrying the encoder's message. `encode` stands for the JSON encoder.
   */
  function EncodeSolution(encode: seq<SolutionItem> -> Result<string, string>, items: seq<SolutionItem>): (r: Result<string, AppError>)
    ensures encode(items).Ok? ==> r == Ok(encode(items).value)
    ensures encode(items).Err? ==> r == Err(InternalServerError(encode(items).error))
  {
    match encode(items)
    case Ok(text) => Ok(text)
    case Err(message) => Err(InternalServerError(message))
  }

  /**
   * `retrieve_and_send_solution`: the stored item list of (crossword, team) as
   * JSON; a team with nothing stored gets the empty list.
   */
  function RetrieveAndSendSolution(store: SolutionStore, teamId: string, crosswordId: string,
                                   readFault: Option<string>, encode: seq<SolutionItem> -> Result<string, string>)
    : (r: Result<string, AppError>)
    reads store
    ensures readFault.Some? ==> r == Err(InternalServerError(readFault.value))
    ensures readFault.None? && (crosswordId, teamId) !in store.solutions ==> r == EncodeSolution(encode, [])
    ensures readFault.None? && (crosswordId, teamId) in store.solutions ==>
              r == EncodeSolution(encode, store.solutions[(crosswordId, teamId)])
  {
    if readFault.Some? then Err(InternalServerError(readFault.value))
    else EncodeSolution(encode, StoredOrEmpty(store.solutions, (crosswordId, teamId)))
  }
}
