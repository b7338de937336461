/** The integer interval a HAML template iterates over
    (ServeRick/Languages/HAML/Compiling/HAMLInterval.cs): an enumerator over C# `int`s that
    counts `Current` up by one until it equals the upper bound. */
module HamlInterval {
  import opened Results

  const Modulus: int := 0x1_0000_0000

  /** `HAMLIntervalEnumerator`: the two bounds and `Current`, all C# `int`s. */
  datatype Enumerator = Enumerator(from: int, to: int, current: int)

  predicate IsInt(x: int) {
    IntMin <= x <= IntMax
  }

  predicate ValidEnumerator(e: Enumerator) {
    IsInt(e.from) && IsInt(e.to) && IsInt(e.current)
  }

  datatype IntervalError = NotImplemented   // the non-generic `IEnumerator.Current`

  /** `GetEnumerator`: a new enumerator whose `Current` has its default value 0; the lower
      bound is only stored. */
  function NewEnumerator(from: int, to: int): (e: Enumerator)
    requires IsInt(from) && IsInt(to)
    ensures ValidEnumerator(e) && e.current == 0 && e.from == from && e.to == to
  {
    Enumerator(from, to, 0)
  }

  /** `MoveNext`: false, with nothing changed, once `Current` equals the upper bound;
      otherwise `++Current` (an unchecked C# increment) and true. */
  function MoveNext(e: Enumerator): (r: (bool, Enumerator))
    requires ValidEnumerator(e)
    ensures ValidEnumerator(r.1) && r.1.from == e.from && r.1.to == e.to
    ensures !r.0 <==> e.current == e.to
    ensures !r.0 ==> r.1 == e
    ensures r.0 && e.current < IntMax ==> r.1.current == e.current + 1
    ensures r.0 && e.current == IntMax ==> r.1.current == IntMin
  {
    if e.current == e.to then (false, e)
    else (true, e.(current := Wrap32(e.current + 1)))
  }

  /** `Reset`: `Current` becomes the lower bound. */
  function Reset(e: Enumerator): (r: Enumerator)
    requires ValidEnumerator(e)
    ensures ValidEnumerator(r) && r.current == e.from && r.from == e.from && r.to == e.to
  {
    e.(current := e.from)
  }

  /** The non-generic `Current` always throws. */
  function CurrentObject(e: Enumerator): (r: Result<int, IntervalError>)
    ensures r == Throws(NotImplemented)
  {
    Throws(NotImplemented)
  }

  /** How many increments, modulo 2^32, take `Current` to the upper bound. */
  function Distance(e: Enumerator): nat {
    (e.to - e.current) % Modulus
  }

  /** Each successful `MoveNext` brings `Current` one step closer to the upper bound, so
      the enumeration ends (after at most 2^32 - 1 steps). */
  lemma MoveNextCloser(e: Enumerator)
    requires ValidEnumerator(e) && e.current != e.to
    ensures Distance(MoveNext(e).1) == Distance(e) - 1
  {
    var c' := MoveNext(e).1.current;
    var d := e.to - e.current;
    assert -Modulus < d < Modulus && d != 0;
    if e.current < IntMax {
      assert c' == e.current + 1;
    } else {
      assert c' == IntMin && d < 0;
      assert e.to - c' == d + Modulus - 1;
    }
  }

  /** The values a `foreach` over the enumerator sees: `Current` after each `MoveNext`
      that returns true. */
  function Yields(e: Enumerator): seq<int>
    requires ValidEnumerator(e)
    decreases Distance(e)
  {
    var (more, e') := MoveNext(e);
    if !more then []
    else
      MoveNextCloser(e);
      [e'.current] + Yields(e')
  }

  /** The integers `lo` to `hi`, both included (empty when `hi < lo`). */
  function Range(lo: int, hi: int): (r: seq<int>)
    ensures |r| == if hi < lo then 0 else hi - lo + 1
    ensures forall k :: 0 <= k < |r| ==> r[k] == lo + k
  {
    if hi < lo then [] else seq(hi - lo + 1, k requires 0 <= k <= hi - lo => lo + k)
  }

  /** From a `Current` at or below the upper bound, the enumeration yields the integers
      after `Current` up to and including the upper bound. */
  lemma {:induction false} YieldsUpTo(e: Enumerator)
    requires ValidEnumerator(e) && e.current <= e.to
    ensures Yields(e) == Range(e.current + 1, e.to)
    decreases e.to - e.current
  {
    if e.current < e.to {
      var e' := MoveNext(e).1;
      YieldsUpTo(e');
      assert Yields(e) == [e.current + 1] + Range(e.current + 2, e.to);
    }
  }

  /** After `Reset` with `from <= to`, the enumeration yields `from + 1` to `to`: the
      lower bound itself is skipped. */
  lemma ResetYields(e: Enumerator)
    requires ValidEnumerator(e) && e.from <= e.to
    ensures Yields(Reset(e)) == Range(e.from + 1, e.to)
  {
    YieldsUpTo(Reset(e));
  }

  /** A `foreach` over `HAMLInterval(from, to)` gets a fresh enumerator and never calls
      `Reset`, so with a non-negative upper bound it yields 1 to `to` whatever `from` is. */
  lemma FreshYieldsAsWritten(from: int, to: int)
    requires IsInt(from) && IsInt(to) && 0 <= to
    ensures Yields(NewEnumerator(from, to)) == Range(1, to)
  {
    YieldsUpTo(NewEnumerator(from, to));
  }

  /** The interval 3..5 yields 1, 2, 3, 4, 5 from a fresh enumerator. */
  lemma FreshIgnoresLowerBound()
    ensures Yields(NewEnumerator(3, 5)) == [1, 2, 3, 4, 5]
    ensures Yields(NewEnumerator(3, 5)) != Range(3, 5)
  {
    FreshYieldsAsWritten(3, 5);
    assert Range(1, 5) == [1, 2, 3, 4, 5];
    assert |Range(3, 5)| == 3;
  }

  /** An enumerator that starts just below the lower bound, as the interval evidently
      intends. */
  function StartingEnumerator(from: int, to: int): (e: Enumerator)
    requires IsInt(from) && IsInt(to)
    ensures ValidEnumerator(e) && e.from == from && e.to == to
  {
    Enumerator(from, to, Wrap32(from - 1))
  }

  /** Started just below the lower bound, the enumeration yields exactly `from` to `to`,
      both included. */
  lemma StartingYieldsInterval(from: int, to: int)
    requires IsInt(from) && IsInt(to) && IntMin < from <= to
    ensures Yields(StartingEnumerator(from, to)) == Range(from, to)
  {
    YieldsUpTo(StartingEnumerator(from, to));
  }
}
