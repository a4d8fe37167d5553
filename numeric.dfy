/** The two pieces of Python number semantics the model needs. */
module Numeric {

  function Abs(n: int): (m: nat)
    ensures m == n || m == -n
  {
    if n < 0 then -n else n
  }

  /** Python's int() applied to a float: truncation toward zero. */
  function Trunc(v: real): (n: int)
    ensures v >= 0.0 ==> 0 <= n && n as real <= v < n as real + 1.0
    ensures v < 0.0 ==> n <= 0 && n as real - 1.0 < v <= n as real
  {
    if v >= 0.0 then v.Floor else -((-v).Floor)
  }

  /** Two values at least 2 apart never truncate to the same integer,
      whatever their signs (values 1 apart can: -0.5 and 0.5 both give 0). */
  lemma TruncSeparates(a: real, b: real)
    requires a + 2.0 <= b
    ensures Trunc(a) < Trunc(b)
  {
    assert (Trunc(a) as real) < a + 1.0;
    assert b - 1.0 < Trunc(b) as real;
  }
}
