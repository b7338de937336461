/** The size-limited sink a multipart part is written to
    (ServeRick/Modules/Input/PartStream.cs). The abstract `write` of a concrete stream is a
    parameter; the model records the bytes handed to it. */
module PartStream {
  import opened Results
  import opened Text

  /** `UInt64.MaxValue + 1`. */
  const ULongRange := 0x1_0000_0000_0000_0000

  /** A part stream: the running total of announced bytes (a C# `ulong`), the limit, and the
      bytes that were passed on to the concrete `write`. */
  datatype PartStream = PartStream(written: int, maxSize: int, delivered: seq<Byte>)
  {
    predicate Valid() { 0 <= written < ULongRange && 0 <= maxSize < ULongRange }
  }

  /** A fresh stream with the given limit. */
  function New(partMaxSize: int): (p: PartStream)
    requires 0 <= partMaxSize < ULongRange
    ensures p.Valid() && p.written == 0 && p.delivered == [] && p.maxSize == partMaxSize
  {
    PartStream(0, partMaxSize, [])
  }

  /** What `Write` hands back: the stream afterwards and whether the part was accepted. */
  datatype Written = Written(stream: PartStream, accepted: bool)

  /** `Write`: the total grows by the chunk length (wrapping like a `ulong`); beyond the
      limit the chunk is refused and not passed on, otherwise the concrete `write` decides. */
  function Write(p: PartStream, chunk: seq<Byte>, write: seq<Byte> -> bool): (w: Written)
    ensures p.Valid() ==> w.stream.Valid()
    ensures w.stream.maxSize == p.maxSize
    ensures w.stream.written == Wrap64u(p.written + |chunk|)
    ensures w.stream.written > p.maxSize ==> !w.accepted && w.stream.delivered == p.delivered
    ensures w.stream.written <= p.maxSize ==>
              w.accepted == write(chunk) && w.stream.delivered == p.delivered + chunk
  {
    var total := Wrap64u(p.written + |chunk|);
    if total > p.maxSize then Written(p.(written := total), false)
    else Written(p.(written := total, delivered := p.delivered + chunk), write(chunk))
  }

  /** Writing chunk after chunk, stopping at the first refusal, as the multipart reader
      does. */
  function WriteAll(p: PartStream, chunks: seq<seq<Byte>>, write: seq<Byte> -> bool): (w: Written)
    requires p.Valid()
    ensures w.stream.Valid() && w.stream.maxSize == p.maxSize
    decreases |chunks|
  {
    if |chunks| == 0 then Written(p, true)
    else
      var first := Write(p, chunks[0], write);
      if !first.accepted then first else WriteAll(first.stream, chunks[1..], write)
  }

  /** Total length of a list of chunks. */
  function TotalLength(chunks: seq<seq<Byte>>): nat {
    if |chunks| == 0 then 0 else |chunks[0]| + TotalLength(chunks[1..])
  }

  /** All chunks glued together. */
  function Concat(chunks: seq<seq<Byte>>): seq<Byte> {
    if |chunks| == 0 then [] else chunks[0] + Concat(chunks[1..])
  }

  /** While the running total stays within the limit and the concrete stream takes every
      chunk, the stream receives exactly the concatenation of the chunks, and the total is
      their summed length (a limit equal to the total is still accepted). */
  lemma {:induction false} WriteAllWithinLimit(p: PartStream, chunks: seq<seq<Byte>>,
                                               write: seq<Byte> -> bool)
    requires p.Valid()
    requires p.written + TotalLength(chunks) <= p.maxSize
    requires forall k :: 0 <= k < |chunks| ==> write(chunks[k])
    ensures var w := WriteAll(p, chunks, write);
      && w.accepted
      && w.stream.written == p.written + TotalLength(chunks)
      && w.stream.delivered == p.delivered + Concat(chunks)
    decreases |chunks|
  {
    if |chunks| == 0 {
      assert p.delivered + [] == p.delivered;
    } else {
      var first := Write(p, chunks[0], write);
      assert first.stream.written == p.written + |chunks[0]|;
      assert forall k :: 0 <= k < |chunks[1..]| ==> write(chunks[1..][k]) by {
        forall k | 0 <= k < |chunks[1..]| ensures write(chunks[1..][k]) {
          assert chunks[1..][k] == chunks[k + 1];
        }
      }
      WriteAllWithinLimit(first.stream, chunks[1..], write);
      assert p.delivered + chunks[0] + Concat(chunks[1..]) == p.delivered + Concat(chunks);
    }
  }

  /** Once the total has passed the limit, every later chunk is refused and nothing more
      is passed on (as long as the `ulong` total does not wrap). */
  lemma OverLimitStaysRefused(p: PartStream, chunk: seq<Byte>, write: seq<Byte> -> bool)
    requires p.Valid() && p.written > p.maxSize
    requires p.written + |chunk| < ULongRange
    ensures var w := Write(p, chunk, write);
      !w.accepted && w.stream.delivered == p.delivered && w.stream.written > p.maxSize
  {
  }
}
