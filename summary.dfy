/** `d3.sum` and `d3.min` over an accessor, on numbers that are already numeric. */
module Summary {

  /** `d3.sum(xs, p)`: the values added up from the first element to the last. */
  function Sum<T>(xs: seq<T>, p: T -> real): real {
    if xs == [] then 0.0 else Sum(xs[..|xs| - 1], p) + p(xs[|xs| - 1])
  }

  /** `d3.min(xs, p)` of a non-empty sequence: a lower bound that some element attains. */
  function Min<T>(xs: seq<T>, p: T -> real): (m: real)
    requires xs != []
    ensures forall x :: x in xs ==> m <= p(x)
    ensures exists x :: x in xs && m == p(x)
  {
    if |xs| == 1 then p(xs[0])
    else
      var m := Min(xs[..|xs| - 1], p);
      if p(xs[|xs| - 1]) < m then p(xs[|xs| - 1]) else m
  }

  /** The sum of a concatenation is the sum of the parts. */
  lemma {:induction false} SumAppend<T>(a: seq<T>, b: seq<T>, p: T -> real)
    ensures Sum(a + b, p) == Sum(a, p) + Sum(b, p)
  {
    if b != [] {
      var b' := b[..|b| - 1];
      assert (a + b)[..|a + b| - 1] == a + b';
      SumAppend(a, b', p);
      assert (a + b)[|a + b| - 1] == b[|b| - 1];
    } else {
      assert a + b == a;
    }
  }
}
