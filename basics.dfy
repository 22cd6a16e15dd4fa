/** Small facts about integers and sequences shared by the other modules. */
module Basics {
  import opened Wrappers

  function Min(a: int, b: int): int { if a <= b then a else b }

  function Max(a: int, b: int): int { if a <= b then b else a }

  /** The pages lo, lo+1, ..., hi of a Python `range(lo, hi + 1)`. */
  function Range(lo: int, hi: int): (r: seq<int>)
    ensures |r| == Max(hi - lo + 1, 0)
    ensures forall i :: 0 <= i < |r| ==> r[i] == lo + i
    decreases hi - lo
  {
    if hi < lo then [] else Range(lo, hi - 1) + [hi]
  }

  predicate IsPrefix<T(==)>(p: seq<T>, s: seq<T>) {
    |p| <= |s| && s[..|p|] == p
  }

  /** The values `f` extracts, in order, from the elements it accepts. */
  function Pick<E, T>(s: seq<E>, f: E -> Option<T>): (r: seq<T>)
    ensures |r| <= |s|
    decreases |s|
  {
    if s == [] then []
    else Pick(s[..|s| - 1], f) + (match f(s[|s| - 1]) case Some(v) => [v] case None => [])
  }

  lemma {:induction false} PickAppend<E, T>(a: seq<E>, b: seq<E>, f: E -> Option<T>)
    ensures Pick(a + b, f) == Pick(a, f) + Pick(b, f)
    decreases |b|
  {
    if b == [] {
      assert a + b == a;
    } else {
      var b' := b[..|b| - 1];
      assert (a + b)[..|a + b| - 1] == a + b';
      PickAppend(a, b', f);
    }
  }

  lemma PickOne<E, T>(x: E, f: E -> Option<T>)
    ensures Pick([x], f) == match f(x) case Some(v) => [v] case None => []
  {
    assert [x][..0] == [];
  }
}
