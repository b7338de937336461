/** A unit of work (ServeRick/Processing/WorkItem.cs): it is planned onto one processor,
    enqueued there once, and completed once. Processors are named by number; what an item
    runs (`Run`) and the processors' queues are not part of this model. */
module WorkItems {
  import opened Results

  /** The state of a work item: its planned processor (`null` is `None`), whether it was
      completed and whether it was enqueued. */
  datatype WorkItem = WorkItem(plannedProcessor: Option<nat>, isComplete: bool, wasEnqueued: bool)

  datatype ItemError =
    | CannotReplan       // "Cannot replan processor for work item"
    | CompletedTwice     // "Cannot complete work item twice"
    | NoProcessor        // `PlannedProcessor.EnqueueWork` on a null processor

  /** What completing an item sets off, in order: the item's own `onComplete` override,
      then the `OnComplete` event when it has subscribers. */
  datatype Notification = CompletionHook | CompletionEvent

  /** A new item: nothing planned, not complete, not enqueued. */
  function NewItem(): (w: WorkItem)
    ensures w.plannedProcessor.None? && !w.isComplete && !w.wasEnqueued
  {
    WorkItem(None, false, false)
  }

  /** `PlanProcessor`: only an item without a processor can be planned. */
  function PlanProcessor(w: WorkItem, processor: nat): (r: Result<WorkItem, ItemError>)
    ensures r.Ok? <==> w.plannedProcessor.None?
    ensures r.Ok? ==> r.value == w.(plannedProcessor := Some(processor))
  {
    if w.plannedProcessor.Some? then Throws(CannotReplan)
    else Ok(w.(plannedProcessor := Some(processor)))
  }

  /** Once planned, an item keeps its processor: a second plan throws. */
  lemma PlanOnce(w: WorkItem, p: nat, q: nat)
    requires w.plannedProcessor.None?
    ensures PlanProcessor(w, p).Ok?
    ensures PlanProcessor(PlanProcessor(w, p).value, q) == Throws(CannotReplan)
  {
  }

  /** `Complete`: the flag is set, then the hook runs, then the event fires. */
  function Complete(w: WorkItem, hasSubscribers: bool): (r: Result<(WorkItem, seq<Notification>), ItemError>)
    ensures r.Ok? <==> !w.isComplete
    ensures r.Ok? ==> r.value.0 == w.(isComplete := true)
    ensures r.Ok? ==> |r.value.1| >= 1 && r.value.1[0] == CompletionHook
    ensures r.Ok? ==> (CompletionEvent in r.value.1 <==> hasSubscribers)
  {
    if w.isComplete then Throws(CompletedTwice)
    else Ok((w.(isComplete := true), [CompletionHook] + (if hasSubscribers then [CompletionEvent] else [])))
  }

  /** An item completes at most once. */
  lemma CompleteOnce(w: WorkItem, s1: bool, s2: bool)
    requires !w.isComplete
    ensures Complete(w, s1).Ok?
    ensures Complete(Complete(w, s1).value.0, s2) == Throws(CompletedTwice)
  {
  }

  /** `EnqueueToProcessor`: the caller must not enqueue an item twice (a debug
      assertion in the source); the item is marked and handed to its planned processor,
      whose number is returned. */
  function EnqueueToProcessor(w: WorkItem): (r: Result<(WorkItem, nat), ItemError>)
    requires !w.wasEnqueued
    ensures r.Ok? <==> w.plannedProcessor.Some?
    ensures r.Ok? ==> r.value.0 == w.(wasEnqueued := true) && r.value.1 == w.plannedProcessor.value
  {
    if w.plannedProcessor.None? then Throws(NoProcessor)
    else Ok((w.(wasEnqueued := true), w.plannedProcessor.value))
  }
}
