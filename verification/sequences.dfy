/** Sequence facts shared by the vocabulary, the bit vectors and the engine:
    Python's list indexing, `list.index` and `list.pop`, and ascending
    position lists. */
module Sequences {
  import opened Outcomes

  /** No value occurs twice. */
  predicate NoDup<T(==)>(s: seq<T>) {
    forall i, j :: 0 <= i < |s| && 0 <= j < |s| && i != j ==> s[i] != s[j]
  }

  /** Python's `s.index(v)`: the first position holding `v`, or `None` where
      Python raises `ValueError`. */
  function IndexOf<T(==)>(s: seq<T>, v: T): (r: Option<nat>)
    ensures r.Some? <==> v in s
    ensures r.Some? ==> r.value < |s| && s[r.value] == v && v !in s[..r.value]
  {
    if |s| == 0 then None
    else if s[0] == v then Some(0)
    else
      match IndexOf(s[1..], v)
      case None => None
      case Some(k) =>
        assert s[1..][..k] == s[1..k + 1];
        assert s[..k + 1] == [s[0]] + s[1..k + 1];
        Some(k + 1)
  }

  /** The first occurrence is unique: any position that holds `v` with no
      earlier `v` is the one `IndexOf` finds. */
  lemma IndexOfIsFirst<T>(s: seq<T>, v: T, i: nat)
    requires i < |s| && s[i] == v && v !in s[..i]
    ensures IndexOf(s, v) == Some(i)
  {
  }

  /** Python's indexing of a sequence of length `n` by `i`: non-negative
      indices count from the front, negative ones from the back; anything
      else raises `IndexError` (here `None`). */
  function ResolveIndex(i: int, n: nat): (r: Option<nat>)
    ensures r.Some? <==> -(n as int) <= i < n
    ensures r.Some? ==> r.value < n
    ensures r.Some? && 0 <= i ==> r.value == i
    ensures r.Some? && i < 0 ==> r.value == n + i
  {
    if 0 <= i < n then Some(i)
    else if -(n as int) <= i < 0 then Some(n + i)
    else None
  }

  /** Python's `s.pop(p)` for a valid position: `s` without element `p`. */
  function Remove<T>(s: seq<T>, p: nat): (r: seq<T>)
    requires p < |s|
    ensures |r| == |s| - 1
    ensures forall i :: 0 <= i < p ==> r[i] == s[i]
    ensures forall i :: p <= i < |r| ==> r[i] == s[i + 1]
  {
    s[..p] + s[p + 1..]
  }

  /** Each element is smaller than the next: an ascending list of positions
      without repeats. */
  predicate StrictlyIncreasing(s: seq<int>) {
    forall i, j :: 0 <= i < j < |s| ==> s[i] < s[j]
  }

  /** `[0, 1, ..., n - 1]`. */
  function Range(n: nat): (r: seq<nat>)
    ensures StrictlyIncreasing(r)
    ensures forall i: int :: i in r <==> 0 <= i < n
  {
    if n == 0 then []
    else
      var front := Range(n - 1);
      assert forall i :: 0 <= i < |front| ==> front[i] in front;
      front + [n - 1]
  }

  /** An ascending list is determined by its elements. */
  lemma {:induction false} IncreasingUnique(a: seq<int>, b: seq<int>)
    requires StrictlyIncreasing(a) && StrictlyIncreasing(b)
    requires forall x :: x in a <==> x in b
    ensures a == b
    decreases |a| + |b|
  {
    assert a != [] ==> a[0] in a;
    assert b != [] ==> b[0] in b;
    if a != [] && b != [] {
      assert a[0] == b[0] by {
        assert a[0] in a && a[0] in b;
        assert b[0] in b && b[0] in a;
      }
      forall x
        ensures x in a[1..] <==> x in b[1..]
      {
        if x in a[1..] {
          assert x in b;
          assert x != b[0];
        }
        if x in b[1..] {
          assert x in a;
          assert x != a[0];
        }
      }
      IncreasingUnique(a[1..], b[1..]);
      assert a == [a[0]] + a[1..];
      assert b == [b[0]] + b[1..];
    }
  }
}
