/** Finite sums over sequences: what every SQL `sum(...)` in the read models becomes. */
module Sums {

  function Total<T>(s: seq<T>, w: T -> int): int {
    if s == [] then 0 else Total(s[..|s| - 1], w) + w(s[|s| - 1])
  }

  lemma TotalAppend<T>(s: seq<T>, x: T, w: T -> int)
    ensures Total(s + [x], w) == Total(s, w) + w(x)
  {
    assert (s + [x])[..|s|] == s;
  }

  lemma TotalOfTwo<T>(a: T, b: T, w: T -> int)
    ensures Total([a, b], w) == w(a) + w(b)
  {
    TotalAppend([], a, w);
    TotalAppend([a], b, w);
    assert [] + [a] == [a] && [a] + [b] == [a, b];
  }

  lemma TotalOfThree<T>(a: T, b: T, c: T, w: T -> int)
    ensures Total([a, b, c], w) == w(a) + w(b) + w(c)
  {
    TotalOfTwo(a, b, w);
    TotalAppend([a, b], c, w);
    assert [a, b] + [c] == [a, b, c];
  }

  lemma {:induction false} TotalConcat<T>(s: seq<T>, t: seq<T>, w: T -> int)
    ensures Total(s + t, w) == Total(s, w) + Total(t, w)
  {
    if t == [] {
      assert s + t == s;
    } else {
      var init, last := t[..|t| - 1], t[|t| - 1];
      assert s + t == (s + init) + [last];
      TotalAppend(s + init, last, w);
      TotalConcat(s, init, w);
    }
  }

  lemma {:induction false} TotalUpdate<T>(s: seq<T>, i: nat, x: T, w: T -> int)
    requires i < |s|
    ensures Total(s[i := x], w) == Total(s, w) - w(s[i]) + w(x)
  {
    var n := |s| - 1;
    if i == n {
      assert s[i := x][..n] == s[..n];
    } else {
      assert s[i := x][..n] == s[..n][i := x];
      TotalUpdate(s[..n], i, x, w);
    }
  }

  lemma TotalRemove<T>(s: seq<T>, i: nat, w: T -> int)
    requires i < |s|
    ensures Total(s[..i] + s[i + 1..], w) == Total(s, w) - w(s[i])
  {
    hide Total;
    var before, after := s[..i], s[i + 1..];
    TotalConcat(before, after, w);
    TotalAppend(before, s[i], w);
    TotalConcat(before + [s[i]], after, w);
    assert s == before + [s[i]] + after;
  }

  lemma {:induction false} TotalNotNegative<T>(s: seq<T>, w: T -> int)
    requires forall i :: 0 <= i < |s| ==> w(s[i]) >= 0
    ensures Total(s, w) >= 0
  {
    if s != [] {
      TotalNotNegative(s[..|s| - 1], w);
    }
  }

  /** Sums respect pointwise equality on the elements that occur. */
  lemma {:induction false} TotalSame<T>(s: seq<T>, w: T -> int, v: T -> int)
    requires forall i :: 0 <= i < |s| ==> w(s[i]) == v(s[i])
    ensures Total(s, w) == Total(s, v)
  {
    if s != [] {
      TotalSame(s[..|s| - 1], w, v);
    }
  }

  lemma {:induction false} TotalAdd<T>(s: seq<T>, w: T -> int, v: T -> int, u: T -> int)
    requires forall i :: 0 <= i < |s| ==> u(s[i]) == w(s[i]) + v(s[i])
    ensures Total(s, u) == Total(s, w) + Total(s, v)
  {
    if s != [] {
      TotalAdd(s[..|s| - 1], w, v, u);
    }
  }

  lemma {:induction false} TotalScale<T>(s: seq<T>, c: int, w: T -> int, u: T -> int)
    requires forall i :: 0 <= i < |s| ==> u(s[i]) == c * w(s[i])
    ensures Total(s, u) == c * Total(s, w)
  {
    if s != [] {
      TotalScale(s[..|s| - 1], c, w, u);
      calc {
        Total(s, u);
        c * Total(s[..|s| - 1], w) + c * w(s[|s| - 1]);
        c * (Total(s[..|s| - 1], w) + w(s[|s| - 1]));
      }
    }
  }

  lemma {:induction false} TotalZero<T>(s: seq<T>, w: T -> int)
    requires forall i :: 0 <= i < |s| ==> w(s[i]) == 0
    ensures Total(s, w) == 0
  {
    if s != [] {
      TotalZero(s[..|s| - 1], w);
    }
  }

  /** One weight alone. */
  lemma {:induction false} TotalOnly<T>(s: seq<T>, k: nat, w: T -> int)
    requires k < |s| && forall i :: 0 <= i < |s| && i != k ==> w(s[i]) == 0
    ensures Total(s, w) == w(s[k])
  {
    var n := |s| - 1;
    if k == n {
      TotalZero(s[..n], w);
    } else {
      TotalOnly(s[..n], k, w);
    }
  }

  lemma {:induction false} TotalMonotone<T>(s: seq<T>, w: T -> int, v: T -> int)
    requires forall i :: 0 <= i < |s| ==> w(s[i]) <= v(s[i])
    ensures Total(s, w) <= Total(s, v)
  {
    if s != [] {
      TotalMonotone(s[..|s| - 1], w, v);
    }
  }

  /** The inner sum of a double sum, as a weight. */
  function Inner<A, B>(t: seq<B>, f: A -> B -> int): A -> int {
    (a: A) => Total(t, f(a))
  }

  /** Interchanging two finite sums. */
  lemma {:induction false} TotalSwap<A, B>(s: seq<A>, t: seq<B>, f: A -> B -> int, g: B -> A -> int)
    requires forall i, j :: 0 <= i < |s| && 0 <= j < |t| ==> f(s[i])(t[j]) == g(t[j])(s[i])
    ensures Total(s, Inner(t, f)) == Total(t, Inner(s, g))
  {
    if s == [] {
      TotalZero(t, Inner(s, g));
    } else {
      var init, last := s[..|s| - 1], s[|s| - 1];
      TotalSwap(init, t, f, g);
      TotalAdd(t, Inner(init, g), f(last), Inner(s, g));
    }
  }
}
