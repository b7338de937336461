/** A chain of work items processed one after another (ServeRick/Processing/WorkChain.cs).
    The linked list is a sequence of item numbers; its two node references, the insertion
    cursor and the item being processed, are positions in it, moved when an insertion
    shifts the nodes after them. A null node is `None`. */
module WorkChains {
  import opened Results

  datatype WorkChain = WorkChain(
    items: seq<nat>,
    cursor: Option<nat>,
    processed: Option<nat>,
    isAborted: bool,
    isComplete: bool)

  datatype ChainError =
    | InvalidState       // "Cannot start work chain processing in current state"
    | WrongItem          // "Cannot complete given item in current state"
    | NoProcessedItem    // `_processedItem.Value` or `ProcessedItem` on a null node

  /** Both node references point into the list. */
  predicate ValidChain(c: WorkChain) {
    && (c.cursor.Some? ==> c.cursor.value < |c.items|)
    && (c.processed.Some? ==> c.processed.value < |c.items|)
  }

  function NewChain(): (c: WorkChain)
    ensures ValidChain(c) && |c.items| == 0 && c.cursor.None? && c.processed.None?
    ensures !c.isAborted && !c.isComplete
  {
    WorkChain([], None, None, false, false)
  }

  /** Where a node at `at` ends up when a node is inserted at `pos`. */
  function Shift(at: Option<nat>, pos: nat): Option<nat> {
    if at.Some? && at.value >= pos then Some(at.value + 1) else at
  }

  /** `InsertItem`: with no cursor the item is appended; otherwise it goes right after the
      cursor. Either way it becomes the cursor. The processed node keeps its item. */
  function InsertItem(c: WorkChain, item: nat): (r: WorkChain)
    requires ValidChain(c)
    ensures ValidChain(r) && r.cursor.Some? && r.items[r.cursor.value] == item && |r.items| == |c.items| + 1
    ensures c.cursor.None? ==> r.items == c.items + [item]
    ensures c.cursor.Some? ==>
      (r.cursor.value == c.cursor.value + 1
       && r.items == c.items[..c.cursor.value + 1] + [item] + c.items[c.cursor.value + 1..])
    ensures c.processed.Some? ==> r.processed.Some? && r.items[r.processed.value] == c.items[c.processed.value]
    ensures r.isAborted == c.isAborted && r.isComplete == c.isComplete
  {
    if c.cursor.None? then
      c.(items := c.items + [item], cursor := Some(|c.items|))
    else
      var pos := c.cursor.value + 1;
      var items := c.items[..pos] + [item] + c.items[pos..];
      assert c.processed.Some? && c.processed.value >= pos ==> items[c.processed.value + 1] == c.items[c.processed.value];
      c.(items := items, cursor := Some(pos), processed := Shift(c.processed, pos))
  }

  /** `AppendItem`: the item goes at the end; neither node reference moves. */
  function AppendItem(c: WorkChain, item: nat): (r: WorkChain)
    requires ValidChain(c)
    ensures ValidChain(r) && r.items == c.items + [item]
    ensures r.cursor == c.cursor && r.processed == c.processed
    ensures r.isAborted == c.isAborted && r.isComplete == c.isComplete
  {
    c.(items := c.items + [item])
  }

  /** The items a sequence of `InsertItem` calls adds. */
  function InsertAll(c: WorkChain, items: seq<nat>): (r: WorkChain)
    requires ValidChain(c)
    ensures ValidChain(r)
    decreases |items|
  {
    if |items| == 0 then c else InsertAll(InsertItem(c, items[0]), items[1..])
  }

  /** Items inserted one after another, each right after the previous one, keep the
      order of insertion: inserted after the cursor, they land as a block right after
      it, and the last one becomes the cursor. */
  lemma {:induction false} InsertAllAfterCursor(c: WorkChain, items: seq<nat>)
    requires ValidChain(c) && c.cursor.Some? && |items| > 0
    ensures var r := InsertAll(c, items);
      var pos := c.cursor.value + 1;
      r.items == c.items[..pos] + items + c.items[pos..] && r.cursor == Some(c.cursor.value + |items|)
    decreases |items|
  {
    var pos := c.cursor.value + 1;
    var c1 := InsertItem(c, items[0]);
    if |items| > 1 {
      InsertAllAfterCursor(c1, items[1..]);
      var pos1 := pos + 1;
      assert c1.items[..pos1] == c.items[..pos] + [items[0]];
      assert c1.items[pos1..] == c.items[pos..];
      assert [items[0]] + items[1..] == items;
    }
  }

  /** Into an empty chain, a sequence of inserts gives exactly the items in insertion
      order, with the last as cursor. */
  lemma InsertIntoNew(items: seq<nat>)
    requires |items| > 0
    ensures InsertAll(NewChain(), items).items == items
    ensures InsertAll(NewChain(), items).cursor == Some(|items| - 1)
  {
    var c1 := InsertItem(NewChain(), items[0]);
    assert c1.items == [items[0]];
    if |items| > 1 {
      InsertAllAfterCursor(c1, items[1..]);
      assert c1.items[..1] + items[1..] + c1.items[1..] == items;
    }
  }

  /** `StartProcessing`: fails once processing has started or the chain is complete;
      otherwise the first item becomes the processed one and is returned to be enqueued
      on its processor. An empty chain has no first node to enqueue. */
  function StartProcessing(c: WorkChain): (r: Result<(WorkChain, nat), ChainError>)
    requires ValidChain(c)
    ensures c.processed.Some? || c.isComplete ==> r == Throws(InvalidState)
    ensures r.Ok? <==> c.processed.None? && !c.isComplete && |c.items| > 0
    ensures r.Ok? ==> ValidChain(r.value.0) && r.value.0 == c.(processed := Some(0)) && r.value.1 == c.items[0]
  {
    if c.processed.Some? || c.isComplete then Throws(InvalidState)
    else if |c.items| == 0 then Throws(NoProcessedItem)
    else Ok((c.(processed := Some(0)), c.items[0]))
  }

  /** What `OnComplete` does after the check: either the chain completes (and its
      `OnCompleted` handlers run) or the next item is enqueued on its processor. */
  datatype Continuation = Completed | Enqueue(item: nat)

  /** `OnComplete`: only the processed item may complete; processing moves to the next
      node, and the chain completes when there is none or when it was aborted. */
  function OnComplete(c: WorkChain, item: nat): (r: Result<(WorkChain, Continuation), ChainError>)
    requires ValidChain(c)
    ensures c.processed.None? ==> r == Throws(NoProcessedItem)
    ensures c.processed.Some? ==> (r.Ok? <==> c.items[c.processed.value] == item)
    ensures r.Ok? ==>
      var (c', next) := r.value;
      var p := c.processed.value;
      && ValidChain(c')
      && c'.items == c.items && c'.cursor == c.cursor && c'.isAborted == c.isAborted
      && c'.processed == (if p + 1 < |c.items| then Some(p + 1) else None)
      && (next.Completed? <==> p + 1 == |c.items| || c.isAborted)
      && (next.Completed? ==> c'.isComplete)
      && (next.Enqueue? ==> c'.isComplete == c.isComplete && next.item == c.items[p + 1])
  {
    if c.processed.None? then Throws(NoProcessedItem)
    else if item != c.items[c.processed.value] then Throws(WrongItem)
    else
      var p := c.processed.value;
      var next := if p + 1 < |c.items| then Some(p + 1) else None;
      if next.None? || c.isAborted then Ok((c.(processed := next, isComplete := true), Completed))
      else Ok((c.(processed := next), Enqueue(c.items[p + 1])))
  }

  /** Completing the processed item `k` times in a row. */
  function CompleteTimes(c: WorkChain, k: nat): (r: Result<WorkChain, ChainError>)
    requires ValidChain(c)
    ensures r.Ok? ==> ValidChain(r.value) && r.value.items == c.items
    decreases k
  {
    if k == 0 then Ok(c)
    else if c.processed.None? then Throws(NoProcessedItem)
    else
      match OnComplete(c, c.items[c.processed.value])
      case Throws(e) => Throws(e)
      case Ok((c', _)) => CompleteTimes(c', k - 1)
  }

  /** A started chain that is not aborted processes its items in list order: after the
      `k`-th completion the item at position `k` is processed, and the completion of the
      last item completes the chain. */
  lemma {:induction false} ProcessesInOrder(c: WorkChain, k: nat)
    requires ValidChain(c) && c.processed == Some(0) && !c.isAborted && !c.isComplete
    requires k <= |c.items|
    ensures CompleteTimes(c, k).Ok?
    ensures k < |c.items| ==> CompleteTimes(c, k).value == c.(processed := Some(k))
    ensures k == |c.items| ==> CompleteTimes(c, k).value.isComplete && CompleteTimes(c, k).value.processed.None?
    decreases k
  {
    if k > 0 {
      ProcessesInOrder(c, k - 1);
      var ck := CompleteTimes(c, k - 1).value;
      assert CompleteTimes(c, k) == CompleteTimes(ck, 1) by {
        CompleteTimesSplit(c, k - 1, 1);
      }
    }
  }

  lemma {:induction false} CompleteTimesSplit(c: WorkChain, a: nat, b: nat)
    requires ValidChain(c)
    ensures CompleteTimes(c, a + b)
      == (var r := CompleteTimes(c, a); if r.Throws? then r else CompleteTimes(r.value, b))
    decreases a
  {
    if a > 0 && c.processed.Some? {
      var r := OnComplete(c, c.items[c.processed.value]);
      if r.Ok? {
        CompleteTimesSplit(r.value.0, a - 1, b);
      }
    }
  }

  /** `Abort`: on a complete chain nothing happens; otherwise the chain is marked aborted
      and the items from the cursor to the end are aborted, in order (none without a
      cursor). */
  function Abort(c: WorkChain): (r: (WorkChain, seq<nat>))
    requires ValidChain(c)
    ensures c.isComplete ==> r == (c, [])
    ensures !c.isComplete ==> r.0 == c.(isAborted := true)
    ensures !c.isComplete && c.cursor.Some? ==> r.1 == c.items[c.cursor.value..]
    ensures c.cursor.None? ==> r.1 == []
  {
    if c.isComplete then (c, [])
    else if c.cursor.None? then (c.(isAborted := true), [])
    else (c.(isAborted := true), c.items[c.cursor.value..])
  }

  /** Once aborted, the chain completes at the next completion of its processed item
      instead of enqueueing the next one. */
  lemma AbortedCompletesNext(c: WorkChain)
    requires ValidChain(c) && !c.isComplete && c.processed.Some?
    ensures var a := Abort(c).0;
      var r := OnComplete(a, a.items[a.processed.value]);
      r.Ok? && r.value.1 == Completed && r.value.0.isComplete
  {
  }
}
