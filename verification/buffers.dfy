/** Buffer pooling (ServeRick/Memory/BufferProvider.cs, ServeRick/Memory/DataBuffer.cs): a
    provider hands out buffers of one fixed length, reusing recycled storage before
    allocating new storage within a memory budget. A byte array is modelled by its
    identity and length; its contents play no part here. */
module Buffers {
  import opened Results

  /** A byte array: `id` tells arrays apart (the order of allocation), `length` is its
      size in bytes. */
  datatype Storage = Storage(id: nat, length: int)

  /** `BufferProvider`: the buffer length, the budget, the memory allocated so far, how
      many arrays were allocated, and the stack of free buffers' storage (top last). */
  datatype Provider = Provider(
    bufferLength: int,
    maximalMemoryUsage: int,
    currentMemoryUsage: int,
    allocations: nat,
    free: seq<Storage>)

  /** `DataBuffer`: its storage and the recycled flag. */
  datatype DataBuffer = DataBuffer(storage: Storage, isRecycled: bool)

  datatype BufferError =
    | BadLength        // "Cannot create buffer with given length"
    | NoMemory         // "Needs more memory to use"
    | OutOfBudget      // "Strategies for PANIC situation"
    | Recycled         // "Cannot get storage when its recycled"
    | RecycledTwice    // "Recyclation cannot be processed twice"

  /** The provider's accounting: positive length and budget (C# `int`s), the usage is
      exactly the memory of the arrays allocated and stays within the budget, and the free
      stack holds arrays of the buffer length that this provider allocated. */
  predicate ValidProvider(p: Provider) {
    && 1 <= p.bufferLength <= IntMax && 1 <= p.maximalMemoryUsage <= IntMax
    && p.currentMemoryUsage == p.bufferLength * p.allocations
    && 0 <= p.currentMemoryUsage <= p.maximalMemoryUsage
    && forall k :: 0 <= k < |p.free| ==> p.free[k].id < p.allocations && p.free[k].length == p.bufferLength
  }

  /** The constructor: the length is checked first, then the budget. */
  function NewProvider(bufferLength: int, maximalMemoryUsage: int): (r: Result<Provider, BufferError>)
    requires IntMin <= bufferLength <= IntMax && IntMin <= maximalMemoryUsage <= IntMax
    ensures bufferLength < 1 ==> r == Throws(BadLength)
    ensures 1 <= bufferLength && maximalMemoryUsage < 1 ==> r == Throws(NoMemory)
    ensures r.Ok? <==> 1 <= bufferLength && 1 <= maximalMemoryUsage
    ensures r.Ok? ==> ValidProvider(r.value) && r.value.currentMemoryUsage == 0 && |r.value.free| == 0
  {
    if bufferLength < 1 then Throws(BadLength)
    else if maximalMemoryUsage < 1 then Throws(NoMemory)
    else Ok(Provider(bufferLength, maximalMemoryUsage, 0, 0, []))
  }

  /** `RecycleBufferStorage`: a new buffer over the storage is pushed on the free stack;
      the memory usage is not touched. */
  function RecycleBufferStorage(p: Provider, storage: Storage): (r: Provider)
    ensures r.free == p.free + [storage]
    ensures r.currentMemoryUsage == p.currentMemoryUsage && r.allocations == p.allocations
    ensures r.bufferLength == p.bufferLength && r.maximalMemoryUsage == p.maximalMemoryUsage
    ensures ValidProvider(p) && storage.id < p.allocations && storage.length == p.bufferLength ==> ValidProvider(r)
  {
    p.(free := p.free + [storage])
  }

  /** `allocateBuffer`: a new array of the buffer length when it fits in the budget. The
      budget test is made on exact integers; the source's `int` addition can wrap, see
      `AllocateAsWritten`. */
  function Allocate(p: Provider): (r: Result<(Provider, DataBuffer), BufferError>)
    requires ValidProvider(p)
    ensures r.Ok? <==> p.currentMemoryUsage + p.bufferLength <= p.maximalMemoryUsage
    ensures r.Ok? ==>
      var (p', b) := r.value;
      && ValidProvider(p')
      && p'.currentMemoryUsage == p.currentMemoryUsage + p.bufferLength
      && p'.free == p.free
      && b == DataBuffer(Storage(p.allocations, p.bufferLength), false)
      && (forall k :: 0 <= k < |p.free| ==> p.free[k] != b.storage)
  {
    if p.currentMemoryUsage + p.bufferLength > p.maximalMemoryUsage then Throws(OutOfBudget)
    else
      Ok((p.(currentMemoryUsage := p.currentMemoryUsage + p.bufferLength, allocations := p.allocations + 1),
          DataBuffer(Storage(p.allocations, p.bufferLength), false)))
  }

  /** `allocateBuffer` as written: the test and the update use a wrapping C# `int`
      addition. */
  function AllocateAsWritten(p: Provider): (r: Result<(Provider, DataBuffer), BufferError>)
    requires ValidProvider(p)
    ensures r.Ok? <==> Wrap32(p.currentMemoryUsage + p.bufferLength) <= p.maximalMemoryUsage
    ensures r.Ok? ==> r.value.0.currentMemoryUsage == Wrap32(p.currentMemoryUsage + p.bufferLength)
  {
    var sum := Wrap32(p.currentMemoryUsage + p.bufferLength);
    if sum > p.maximalMemoryUsage then Throws(OutOfBudget)
    else
      Ok((p.(currentMemoryUsage := sum, allocations := p.allocations + 1),
          DataBuffer(Storage(p.allocations, p.bufferLength), false)))
  }

  /** With buffers of 0x6000_0000 bytes and the largest budget, the second allocation
      overflows: the wrapped sum is negative, so the test passes and the usage goes
      negative, where the exact test refuses. */
  lemma AllocateOverflowExample()
    ensures var p := Provider(0x6000_0000, IntMax, 0x6000_0000, 1, []);
      && ValidProvider(p)
      && AllocateAsWritten(p).Ok?
      && AllocateAsWritten(p).value.0.currentMemoryUsage == -0x4000_0000
      && Allocate(p) == Throws(OutOfBudget)
  {
    var p := Provider(0x6000_0000, IntMax, 0x6000_0000, 1, []);
    assert Wrap32(0xC000_0000) == -0x4000_0000;
  }

  /** `GetBuffer`: the most recently recycled storage if there is any, otherwise a newly
      allocated one. */
  function GetBuffer(p: Provider): (r: Result<(Provider, DataBuffer), BufferError>)
    requires ValidProvider(p)
    ensures |p.free| > 0 ==>
      (r.Ok? && r.value.1 == DataBuffer(p.free[|p.free| - 1], false) && r.value.0 == p.(free := p.free[..|p.free| - 1]))
    ensures |p.free| == 0 ==> r == Allocate(p)
    ensures r.Ok? ==>
      (ValidProvider(r.value.0) && r.value.1.storage.length == p.bufferLength
       && r.value.1.storage.id < r.value.0.allocations && !r.value.1.isRecycled)
  {
    if |p.free| > 0 then Ok((p.(free := p.free[..|p.free| - 1]), DataBuffer(p.free[|p.free| - 1], false)))
    else Allocate(p)
  }

  /** `GetBuffer` as written, allocating through the wrapping budget test. It agrees with
      `GetBuffer` whenever the usage plus one buffer does not overflow an `int`. */
  function GetBufferAsWritten(p: Provider): (r: Result<(Provider, DataBuffer), BufferError>)
    requires ValidProvider(p)
    ensures |p.free| > 0 ==> r == GetBuffer(p)
    ensures |p.free| == 0 ==> r == AllocateAsWritten(p)
    ensures p.currentMemoryUsage + p.bufferLength <= IntMax ==> r == GetBuffer(p)
  {
    if |p.free| > 0 then Ok((p.(free := p.free[..|p.free| - 1]), DataBuffer(p.free[|p.free| - 1], false)))
    else AllocateAsWritten(p)
  }

  /** With the free stack empty, the source's `GetBuffer` hands out a buffer the budget
      cannot hold and leaves the usage negative; the corrected one refuses. */
  lemma GetBufferOverflowAsWritten()
    ensures var p := Provider(0x6000_0000, IntMax, 0x6000_0000, 1, []);
      && GetBufferAsWritten(p).Ok?
      && GetBufferAsWritten(p).value.0.currentMemoryUsage < 0
      && GetBuffer(p) == Throws(OutOfBudget)
  {
    AllocateOverflowExample();
  }

  /** Recycled storage is handed out again first, last in first out: recycling a buffer
      and getting one returns that same storage and leaves the provider as it was. */
  lemma RecycleThenGet(p: Provider, storage: Storage)
    requires ValidProvider(p) && storage.id < p.allocations && storage.length == p.bufferLength
    ensures GetBuffer(RecycleBufferStorage(p, storage)) == Ok((p, DataBuffer(storage, false)))
  {
    var p' := RecycleBufferStorage(p, storage);
    assert p'.free[..|p'.free| - 1] == p.free;
  }

  /** `Storage`: the array, unless the buffer has been recycled. */
  function GetStorage(b: DataBuffer): (r: Result<Storage, BufferError>)
    ensures r.Ok? <==> !b.isRecycled
    ensures r.Ok? ==> r.value == b.storage
  {
    if b.isRecycled then Throws(Recycled) else Ok(b.storage)
  }

  /** `Recycle` as written: the flag is tested, the storage goes back to the provider, and
      the flag is never set, so the buffer is returned unchanged. */
  function RecycleAsWritten(b: DataBuffer, p: Provider): (r: Result<(DataBuffer, Provider), BufferError>)
    ensures r.Ok? <==> !b.isRecycled
    ensures r.Ok? ==> r.value.0 == b && r.value.1 == RecycleBufferStorage(p, b.storage)
  {
    if b.isRecycled then Throws(RecycledTwice) else Ok((b, RecycleBufferStorage(p, b.storage)))
  }

  /** Because the flag is never set, a buffer recycled twice puts its storage on the free
      stack twice, and the next two `GetBuffer`s hand the same array to two owners. */
  lemma DoubleRecycleAsWritten(b: DataBuffer, p: Provider)
    requires ValidProvider(p) && !b.isRecycled && b.storage.id < p.allocations && b.storage.length == p.bufferLength
    ensures var r1 := RecycleAsWritten(b, p);
      && r1.Ok?
      && var r2 := RecycleAsWritten(r1.value.0, r1.value.1);
      && r2.Ok?
      && var g1 := GetBuffer(r2.value.1);
      && g1.Ok?
      && var g2 := GetBuffer(g1.value.0);
      && g2.Ok? && g1.value.1.storage == b.storage && g2.value.1.storage == b.storage
  {
    var p1 := RecycleBufferStorage(p, b.storage);
    var p2 := RecycleBufferStorage(p1, b.storage);
    assert p2.free[..|p2.free| - 1] == p1.free;
    RecycleThenGet(p1, b.storage);
    RecycleThenGet(p, b.storage);
  }

  /** `Recycle` as evidently intended: the flag is set on the first recycle. */
  function Recycle(b: DataBuffer, p: Provider): (r: Result<(DataBuffer, Provider), BufferError>)
    ensures r.Ok? <==> !b.isRecycled
    ensures r.Ok? ==> r.value.0 == b.(isRecycled := true) && r.value.1 == RecycleBufferStorage(p, b.storage)
  {
    if b.isRecycled then Throws(RecycledTwice) else Ok((b.(isRecycled := true), RecycleBufferStorage(p, b.storage)))
  }

  /** With the flag set, a buffer goes back to the provider once: a second recycle throws
      and its storage can no longer be read. */
  lemma RecycleOnce(b: DataBuffer, p: Provider)
    requires !b.isRecycled
    ensures var r := Recycle(b, p);
      && r.Ok?
      && Recycle(r.value.0, r.value.1) == Throws(RecycledTwice)
      && GetStorage(r.value.0) == Throws(Recycled)
      && r.value.1.free == p.free + [b.storage]
  {
  }
}
