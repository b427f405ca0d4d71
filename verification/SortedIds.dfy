/** Finite sets of ids, and listing them from the largest to the smallest. */
module SortedIds {
  ghost function Pick<T(!new)>(s: set<T>): (x: T)
    requires s != {}
    ensures x in s
  {
    var x :| x in s;
    x
  }

  lemma {:induction false} LargestExists(s: set<int>)
    requires s != {}
    ensures exists m :: m in s && forall x :: x in s ==> x <= m
  {
    var a := Pick(s);
    var rest := s - {a};
    assert forall x :: x in s <==> x == a || x in rest;
    if rest == {} {
      assert forall x :: x in s ==> x == a;
    } else {
      LargestExists(rest);
      var m :| m in rest && forall x :: x in rest ==> x <= m;
      LargerOfBoth(s, a, m);
    }
  }

  lemma LargerOfBoth(s: set<int>, a: int, m: int)
    requires a in s && m in s && forall x :: x in s ==> x == a || x <= m
    ensures exists largest :: largest in s && forall x :: x in s ==> x <= largest
  {
    var largest := if a > m then a else m;
    assert largest in s && forall x :: x in s ==> x <= largest;
  }

  function Largest(s: set<int>): (m: int)
    requires s != {}
    ensures m in s && forall x :: x in s ==> x <= m
  {
    LargestExists(s);
    var m :| m in s && forall x :: x in s ==> x <= m;
    m
  }

  /** The elements of `s` from the largest to the smallest. */
  function Descending(s: set<int>): (r: seq<int>)
    ensures |r| == |s| && forall x :: x in r <==> x in s
    decreases |s|
  {
    if s == {} then []
    else
      var m := Largest(s);
      var rest := Descending(s - {m});
      assert forall x :: x in [m] + rest <==> x == m || x in rest;
      [m] + rest
  }

  lemma {:induction false} DescendingOrder(s: set<int>)
    ensures forall i, j :: 0 <= i < j < |Descending(s)| ==> Descending(s)[i] > Descending(s)[j]
    decreases |s|
  {
    if s != {} {
      var m := Largest(s);
      var rest := Descending(s - {m});
      DescendingOrder(s - {m});
      forall i, j | 0 <= i < j < |rest| + 1
        ensures ([m] + rest)[i] > ([m] + rest)[j]
      {
        assert rest[j - 1] in s - {m};
      }
    }
  }

  function Elements<T>(xs: seq<T>): set<T> {
    set x | x in xs
  }

  lemma {:induction false} ElementsOfDistinct<T(!new)>(xs: seq<T>)
    requires forall i, j :: 0 <= i < j < |xs| ==> xs[i] != xs[j]
    ensures |Elements(xs)| == |xs|
  {
    if xs != [] {
      var init, last := xs[..|xs| - 1], xs[|xs| - 1];
      ElementsOfDistinct(init);
      assert xs == init + [last];
      assert Elements(xs) == Elements(init) + {last} && last !in Elements(init);
    }
  }

  /** Cutting a listing of a set in two cuts the set in two. */
  lemma SplitListing(s: set<int>, xs: seq<int>, n: nat)
    requires (forall x :: x in xs <==> x in s) && n <= |xs|
    requires forall i, j :: 0 <= i < j < |xs| ==> xs[i] != xs[j]
    ensures s - Elements(xs[n..]) == Elements(xs[..n]) && |Elements(xs[..n])| == n
    ensures forall x :: x in Elements(xs[..n]) ==> exists i :: 0 <= i < n && xs[i] == x
    ensures forall x :: x in s && x !in Elements(xs[..n]) ==> exists i :: n <= i < |xs| && xs[i] == x
  {
    ElementsOfDistinct(xs[..n]);
    PlacesApart(xs, n);
    HalvesApart(xs, n);
    assert Elements(xs[..n]) <= s - Elements(xs[n..]);
    forall x | x in s - Elements(xs[n..])
      ensures x in Elements(xs[..n])
    {
      assert x in xs && xs == xs[..n] + xs[n..];
    }
  }

  lemma HalvesApart(xs: seq<int>, n: nat)
    requires n <= |xs| && forall i, j :: 0 <= i < j < |xs| ==> xs[i] != xs[j]
    ensures forall x :: x in xs[..n] ==> x !in xs[n..]
  {
    forall x | x in xs[..n]
      ensures x !in xs[n..]
    {
      var i :| 0 <= i < n && xs[..n][i] == x;
      assert forall j :: 0 <= j < |xs| - n ==> xs[n..][j] == xs[n + j] != xs[i];
    }
  }

  lemma PlacesApart(xs: seq<int>, n: nat)
    requires n <= |xs|
    ensures forall x :: x in Elements(xs[..n]) ==> exists i :: 0 <= i < n && xs[i] == x
    ensures forall x :: x in xs && x !in Elements(xs[..n]) ==> exists i :: n <= i < |xs| && xs[i] == x
  {
    forall x | x in xs && x !in Elements(xs[..n])
      ensures exists i :: n <= i < |xs| && xs[i] == x
    {
      var i :| 0 <= i < |xs| && xs[i] == x;
      assert forall k :: 0 <= k < n ==> xs[k] in xs[..n];
    }
  }

  lemma NotSubset<T(!new)>(a: set<T>, b: set<T>)
    requires !(a <= b)
    ensures a - b != {}
  {
    var x :| x in a && x !in b;
    assert x in a - b;
  }

  lemma {:induction false} CardinalityOfSubset<T(!new)>(a: set<T>, b: set<T>)
    requires a <= b
    ensures |a| <= |b| && (|a| == |b| ==> a == b)
  {
    if a != {} {
      var x := Pick(a);
      CardinalityOfSubset(a - {x}, b - {x});
      assert a == (a - {x}) + {x} && b == (b - {x}) + {x};
    }
  }

  // ----- The largest ids -----

  /** `top` holds the `n` largest elements of `s`, or all of them when there are fewer. */
  ghost predicate IsTop(top: set<int>, s: set<int>, n: nat) {
    && top <= s
    && |top| == (if |s| < n then |s| else n)
    && forall k, x :: k in top && x in s && x !in top ==> x < k
  }

  lemma TopOfSorted(s: set<int>, n: nat)
    requires |s| > n
    ensures IsTop(s - Elements(Descending(s)[n..]), s, n)
  {
    hide IsTop, Descending;
    DescendingOrder(s);
    TopOfListing(s, Descending(s), n);
  }

  lemma TopOfListing(s: set<int>, sorted: seq<int>, n: nat)
    requires (forall x :: x in sorted <==> x in s) && n <= |sorted| == |s|
    requires forall i, j :: 0 <= i < j < |sorted| ==> sorted[i] > sorted[j]
    ensures s - Elements(sorted[n..]) == Elements(sorted[..n]) && IsTop(Elements(sorted[..n]), s, n)
  {
    var top := Elements(sorted[..n]);
    forall i, j | 0 <= i < j < |sorted|
      ensures sorted[i] != sorted[j]
    {
      assert sorted[i] > sorted[j];
    }
    SplitListing(s, sorted, n);
    hide Elements;
    forall k, x | k in top && x in s && x !in top
      ensures x < k
    {
      var i :| 0 <= i < n && sorted[i] == k;
      var j :| n <= j < |sorted| && sorted[j] == x;
      assert sorted[i] > sorted[j];
    }
    forall x | x in top
      ensures x in s
    {
      var i :| 0 <= i < n && sorted[i] == x;
      assert sorted[i] in sorted;
    }
  }
}
