// Indices that go around the end of an array.
module Modular {
  // v mod n, for a v that has passed n at most once
  function Wrap(v: int, n: int): int {
    if v < n then v else v - n
  }

  lemma WrapIsMod(v: int, n: int)
    requires 0 <= v < 2 * n
    ensures v % n == Wrap(v, n)
  {
    if v >= n {
      assert v == (v - n) + 1 * n;
    }
  }
}
