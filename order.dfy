/** JavaScript's `<` on strings and d3's `ascending`/`descending` comparators. */
module StringOrder {

  /** `a < b` on strings: lexicographic by character, a proper prefix first. */
  predicate Less(a: string, b: string)
    decreases |a|
  {
    if |a| == 0 then |b| > 0
    else if |b| == 0 then false
    else if a[0] != b[0] then a[0] < b[0]
    else Less(a[1..], b[1..])
  }

  lemma {:induction false} LessIrreflexive(a: string)
    ensures !Less(a, a)
    decreases |a|
  {
    if |a| > 0 {
      LessIrreflexive(a[1..]);
    }
  }

  /** Any two different strings are ordered one way or the other. */
  lemma {:induction false} LessTrichotomy(a: string, b: string)
    ensures a == b || Less(a, b) || Less(b, a)
    decreases |a|
  {
    if |a| > 0 && |b| > 0 && a[0] == b[0] {
      LessTrichotomy(a[1..], b[1..]);
      if a[1..] == b[1..] {
        assert a == [a[0]] + a[1..] && b == [b[0]] + b[1..];
      }
    }
  }

  lemma {:induction false} LessAsymmetric(a: string, b: string)
    requires Less(a, b)
    ensures !Less(b, a)
    decreases |a|
  {
    if |a| > 0 && |b| > 0 && a[0] == b[0] {
      LessAsymmetric(a[1..], b[1..]);
    }
  }

  lemma {:induction false} LessTransitive(a: string, b: string, c: string)
    requires Less(a, b) && Less(b, c)
    ensures Less(a, c)
    decreases |a|
  {
    if |a| > 0 && |b| > 0 && |c| > 0 && a[0] == b[0] && b[0] == c[0] {
      LessTransitive(a[1..], b[1..], c[1..]);
    }
  }

  /** `d3.ascending(a, b)`: negative, zero or positive as `a` sorts before, with or
      after `b`; zero exactly on equal strings. */
  function Ascending(a: string, b: string): (r: real)
    ensures r < 0.0 <==> Less(a, b)
    ensures r > 0.0 <==> Less(b, a)
    ensures r == 0.0 <==> a == b
  {
    LessTrichotomy(a, b);
    LessIrreflexive(a);
    if Less(a, b) then LessAsymmetric(a, b); -1.0
    else if Less(b, a) then 1.0
    else 0.0
  }

  /** `d3.descending(a, b)`: the order of `d3.ascending` with the arguments swapped. */
  function Descending(a: string, b: string): (r: real)
    ensures r == Ascending(b, a)
  {
    if Less(b, a) then -1.0 else if Less(a, b) then 1.0 else 0.0
  }

  /** Swapping the arguments negates both comparators, and `Descending` is `Ascending` negated. */
  lemma AscendingAntisymmetric(a: string, b: string)
    ensures Ascending(a, b) == -Ascending(b, a)
    ensures Descending(a, b) == -Ascending(a, b)
  {
  }
}
