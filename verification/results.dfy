/** Failure-carrying datatypes shared by every component of the model.
    The C# code reports failures by throwing exceptions or by returning null;
    the model makes both explicit in the result type. */
module Results {

  /** A value that may be absent; `None` stands for the C# `null`. */
  datatype Option<+T> = None | Some(value: T) {
    function GetOr(default: T): T {
      match this
      case Some(v) => v
      case None => default
    }
  }

  /** Either a value or the exception that the C# code would throw. */
  datatype Result<+T, +E> = Ok(value: T) | Throws(error: E) {
    predicate IsOk() { Ok? }
  }

  /** Signed 32-bit limits of the C# `int` type. */
  const IntMax: int := 0x7FFF_FFFF
  const IntMin: int := -0x8000_0000

  /** Reinterprets an unbounded integer as a C# `int`: two's complement wrap-around. */
  function Wrap32(x: int): (r: int)
    ensures IntMin <= r <= IntMax
    ensures (r - x) % 0x1_0000_0000 == 0
    ensures IntMin <= x <= IntMax ==> r == x
  {
    var m := (x - IntMin) % 0x1_0000_0000;
    m + IntMin
  }

  /** A C# `ulong`: unsigned 64-bit wrap-around. */
  function Wrap64u(x: int): (r: int)
    ensures 0 <= r < 0x1_0000_0000_0000_0000
    ensures 0 <= x < 0x1_0000_0000_0000_0000 ==> r == x
  {
    x % 0x1_0000_0000_0000_0000
  }

  /** Adding to a wrapped counter in two steps wraps like adding the sum at once. */
  lemma Wrap32Add(x: int, a: int, b: int)
    ensures Wrap32(Wrap32(x + a) + b) == Wrap32(x + a + b)
  {
    var w := Wrap32(x + a);
    var k := (w - (x + a)) / 0x1_0000_0000;
    assert w == x + a + k * 0x1_0000_0000;
    assert (w + b - IntMin) % 0x1_0000_0000 == (x + a + b - IntMin) % 0x1_0000_0000;
  }
}
