/** Shared vocabulary: optional values, fallible results, and the fixed-width
    unsigned integer types of the Rust program, as bounded subsets of `int`. */
module Base {

  /** Rust's `Option<T>`. */
  datatype Option<+T> = None | Some(value: T)

  /** Rust's `Result<T, E>`. */
  datatype Result<+T, +E> = Ok(value: T) | Err(error: E)

  const U8_MAX: int := 0xFF
  const U16_MAX: int := 0xFFFF
  const U32_MAX: int := 0xFFFF_FFFF

  type u8 = x: int | 0 <= x <= U8_MAX
  type u16 = x: int | 0 <= x <= U16_MAX
  type u32 = x: int | 0 <= x <= U32_MAX

  /** `iter().filter_map(f).collect()`: the `Some` results of `f`, in order. */
  function FilterMap<A, B>(xs: seq<A>, f: A -> Option<B>): (r: seq<B>)
    ensures |r| <= |xs|
  {
    if |xs| == 0 then []
    else
      var rest := FilterMap(xs[1..], f);
      match f(xs[0])
      case Some(v) => [v] + rest
      case None => rest
  }

  /** Filtering distributes over concatenation. */
  lemma {:induction false} FilterMapConcat<A, B>(a: seq<A>, b: seq<A>, f: A -> Option<B>)
    ensures FilterMap(a + b, f) == FilterMap(a, f) + FilterMap(b, f)
  {
    if |a| > 0 {
      assert (a + b)[0] == a[0];
      assert (a + b)[1..] == a[1..] + b;
      FilterMapConcat(a[1..], b, f);
    } else {
      assert a + b == b;
    }
  }

  /** A value is kept exactly when `f` produces it for some element. */
  lemma {:induction false} FilterMapMember<A, B>(xs: seq<A>, f: A -> Option<B>, y: B)
    ensures y in FilterMap(xs, f) <==> exists k :: 0 <= k < |xs| && f(xs[k]) == Some(y)
  {
    if |xs| > 0 {
      FilterMapMember(xs[1..], f, y);
      if y in FilterMap(xs, f) && f(xs[0]) != Some(y) {
        assert y in FilterMap(xs[1..], f);
        var k :| 0 <= k < |xs| - 1 && f(xs[1..][k]) == Some(y);
        assert xs[1..][k] == xs[k + 1];
      }
      if exists k :: 0 <= k < |xs| && f(xs[k]) == Some(y) {
        var k :| 0 <= k < |xs| && f(xs[k]) == Some(y);
        if k > 0 {
          assert xs[1..][k - 1] == xs[k];
        }
      }
    }
  }

  /** When `f` succeeds on every element, the result is its values one for
      one, in order. */
  lemma {:induction false} FilterMapAll<A, B>(xs: seq<A>, f: A -> Option<B>)
    requires forall k :: 0 <= k < |xs| ==> f(xs[k]).Some?
    ensures |FilterMap(xs, f)| == |xs|
    ensures forall k :: 0 <= k < |xs| ==> FilterMap(xs, f)[k] == f(xs[k]).value
  {
    if |xs| > 0 {
      var rest := xs[1..];
      assert forall k :: 0 <= k < |rest| ==> rest[k] == xs[k + 1];
      FilterMapAll(rest, f);
      var r := FilterMap(xs, f);
      assert r == [f(xs[0]).value] + FilterMap(rest, f);
      forall k | 0 <= k < |xs|
        ensures r[k] == f(xs[k]).value
      {
        if k > 0 {
          assert xs[k] == rest[k - 1];
        }
      }
    }
  }

  /** When `f` fails on every element, nothing is kept. */
  lemma {:induction false} FilterMapNone<A, B>(xs: seq<A>, f: A -> Option<B>)
    requires forall k :: 0 <= k < |xs| ==> f(xs[k]).None?
    ensures FilterMap(xs, f) == []
  {
    if |xs| > 0 {
      assert forall k :: 0 <= k < |xs| - 1 ==> xs[1..][k] == xs[k + 1];
      FilterMapNone(xs[1..], f);
    }
  }

  /** A non-empty sequence is its head before its tail. */
  lemma HeadTail<A>(xs: seq<A>)
    requires |xs| > 0
    ensures [xs[0]] + xs[1..] == xs
  {
  }

  /** `iter().filter(p).collect()`: the elements satisfying `p`, in order. */
  function Filter<A(!new)>(xs: seq<A>, p: A -> bool): (r: seq<A>)
    ensures |r| <= |xs|
    ensures forall x :: x in r <==> x in xs && p(x)
  {
    if |xs| == 0 then []
    else
      var rest := Filter(xs[1..], p);
      assert forall x :: x in xs <==> x == xs[0] || x in xs[1..];
      if p(xs[0]) then [xs[0]] + rest else rest
  }

  /** When every element satisfies `p`, nothing is dropped. */
  lemma {:induction false} FilterAll<A(!new)>(xs: seq<A>, p: A -> bool)
    requires forall k :: 0 <= k < |xs| ==> p(xs[k])
    ensures Filter(xs, p) == xs
  {
    if |xs| > 0 {
      assert forall k :: 0 <= k < |xs| - 1 ==> xs[1..][k] == xs[k + 1];
      FilterAll(xs[1..], p);
      assert [xs[0]] + xs[1..] == xs;
    }
  }

  /** The results of `f` on each element, laid end to end in order (a loop
      that extends one vector per element). */
  function FlatMap<A, B>(xs: seq<A>, f: A -> seq<B>): seq<B> {
    if |xs| == 0 then [] else FlatMap(xs[..|xs| - 1], f) + f(xs[|xs| - 1])
  }

  /** Processing more elements only adds their results after the others. */
  lemma {:induction false} FlatMapAppend<A, B>(a: seq<A>, b: seq<A>, f: A -> seq<B>)
    ensures FlatMap(a + b, f) == FlatMap(a, f) + FlatMap(b, f)
    decreases |b|
  {
    if |b| == 0 {
      assert a + b == a;
    } else {
      var b' := b[..|b| - 1];
      assert (a + b)[..|a + b| - 1] == a + b';
      assert (a + b)[|a + b| - 1] == b[|b| - 1];
      FlatMapAppend(a, b', f);
    }
  }

  /** A value is in the result exactly when it is in the result for some
      element. */
  lemma {:induction false} FlatMapMember<A, B>(xs: seq<A>, f: A -> seq<B>, y: B)
    ensures y in FlatMap(xs, f) <==> exists k :: 0 <= k < |xs| && y in f(xs[k])
  {
    if |xs| > 0 {
      var init := xs[..|xs| - 1];
      FlatMapMember(init, f, y);
      if exists k :: 0 <= k < |xs| && y in f(xs[k]) {
        var k :| 0 <= k < |xs| && y in f(xs[k]);
        if k < |xs| - 1 {
          assert init[k] == xs[k];
        }
      }
      if y in FlatMap(init, f) {
        var k :| 0 <= k < |init| && y in f(init[k]);
        assert xs[k] == init[k];
      }
    }
  }

  /** Flattening the results of the kept elements: a value is there
      exactly when some element satisfying `p` gives it. */
  lemma FlatMapFilterMember<A(!new), B>(xs: seq<A>, p: A -> bool, f: A -> seq<B>, y: B)
    ensures y in FlatMap(Filter(xs, p), f) <==> exists x :: x in xs && p(x) && y in f(x)
  {
    var kept := Filter(xs, p);
    FlatMapMember(kept, f, y);
    if y in FlatMap(kept, f) {
      var k :| 0 <= k < |kept| && y in f(kept[k]);
      assert kept[k] in kept;
    }
    if exists x :: x in xs && p(x) && y in f(x) {
      var x :| x in xs && p(x) && y in f(x);
      assert x in kept;
      var k :| 0 <= k < |kept| && kept[k] == x;
    }
  }

  /** The first index in `[lo, hi)` satisfying `p`. */
  function FirstWhere(p: nat -> bool, lo: nat, hi: nat): (r: Option<nat>)
    requires lo <= hi
    ensures r.Some? ==> lo <= r.value < hi && p(r.value)
    ensures r.Some? ==> forall j: nat :: lo <= j < r.value ==> !p(j)
    ensures r.None? ==> forall j: nat :: lo <= j < hi ==> !p(j)
    decreases hi - lo
  {
    if lo == hi then None
    else if p(lo) then Some(lo)
    else FirstWhere(p, lo + 1, hi)
  }

  /** The last index in `[lo, hi)` satisfying `p`. */
  function LastWhere(p: nat -> bool, lo: nat, hi: nat): (r: Option<nat>)
    requires lo <= hi
    ensures r.Some? ==> lo <= r.value < hi && p(r.value)
    ensures r.Some? ==> forall j: nat :: r.value < j < hi ==> !p(j)
    ensures r.None? ==> forall j: nat :: lo <= j < hi ==> !p(j)
    decreases hi - lo
  {
    if lo == hi then None
    else if p(hi - 1) then Some(hi - 1)
    else LastWhere(p, lo, hi - 1)
  }

  /** A search for the last index over a longer range that fails at its
      new last index is the search over the shorter range. */
  lemma LastWhereShorter(p: nat -> bool, q: nat -> bool, n: nat)
    requires n > 0 && !p(n - 1)
    requires forall k: nat :: k < n - 1 ==> p(k) == q(k)
    ensures LastWhere(p, 0, n) == LastWhere(q, 0, n - 1)
  {
    var a := LastWhere(p, 0, n);
    var b := LastWhere(q, 0, n - 1);
    if a.Some? {
      assert b.Some? && b.value >= a.value;
    }
    if b.Some? {
      assert a.Some? && a.value >= b.value;
    }
  }

  /** The indices of `xs` where `f` gives a value. */
  function Hits<A, T>(f: A -> Option<T>, xs: seq<A>): nat -> bool {
    (k: nat) => k < |xs| && f(xs[k]).Some?
  }

  /** The reference for a loop that keeps the latest value: what `f` gives
      on the last element where it gives anything, `init` when it gives
      nothing anywhere. */
  function LastHit<A, T>(f: A -> Option<T>, xs: seq<A>, init: T): T {
    match LastWhere(Hits(f, xs), 0, |xs|)
    case None => init
    case Some(k) => f(xs[k]).value
  }

  /** The loop itself: over `xs` in order, every value `f` gives overwrites
      the state. */
  function Replay<A, T>(f: A -> Option<T>, xs: seq<A>, init: T): T {
    if |xs| == 0 then init
    else match f(xs[|xs| - 1])
      case Some(v) => v
      case None => Replay(f, xs[..|xs| - 1], init)
  }

  /** The loop ends holding the value of the last hit. */
  lemma {:induction false} ReplayIsLastHit<A, T>(f: A -> Option<T>, xs: seq<A>, init: T)
    ensures Replay(f, xs, init) == LastHit(f, xs, init)
  {
    if |xs| > 0 {
      var ys := xs[..|xs| - 1];
      ReplayIsLastHit(f, ys, init);
      if f(xs[|xs| - 1]).None? {
        assert forall k: nat :: k < |xs| - 1 ==> ys[k] == xs[k];
        LastWhereShorter(Hits(f, xs), Hits(f, ys), |xs|);
      }
    }
  }
}
