/** What `ORDER BY` means here. A table read is a finite set of rows, and sorting
    it is its enumeration in a strict order that is total on the set: there is
    exactly one, so "sorted" and "a permutation" need not be stated apart. */
module Ordering {

  ghost predicate StrictTotalOrder<T(!new)>(less: (T, T) -> bool, s: set<T>) {
    && (forall a {:trigger less(a, a)} | a in s :: !less(a, a))
    && (forall a, b {:trigger less(a, b)} | a in s && b in s && a != b :: less(a, b) || less(b, a))
    && (forall a, b, c {:trigger less(a, b), less(b, c)} | a in s && b in s && c in s && less(a, b) && less(b, c) ::
          less(a, c))
  }

  ghost predicate Increasing<T>(less: (T, T) -> bool, q: seq<T>) {
    forall i, j {:trigger q[i], q[j]} | 0 <= i < j < |q| :: less(q[i], q[j])
  }

  ghost function Elements<T>(q: seq<T>): set<T> {
    set x | x in q
  }

  predicate Distinct<T(==)>(q: seq<T>) {
    forall i, j | 0 <= i < j < |q| :: q[i] != q[j]
  }

  ghost predicate IsLeast<T(!new)>(less: (T, T) -> bool, s: set<T>, m: T) {
    m in s && forall x {:trigger x in s} | x in s && x != m :: less(m, x)
  }

  lemma {:induction false} LeastExists<T(!new)>(less: (T, T) -> bool, s: set<T>)
    requires s != {} && StrictTotalOrder(less, s)
    ensures exists m :: IsLeast(less, s, m)
  {
    var a :| a in s;
    if s == {a} {
      assert IsLeast(less, s, a);
    } else {
      assert s == {a} + (s - {a});
      LeastExists(less, s - {a});
      var m :| IsLeast(less, s - {a}, m);
      assert IsLeast(less, s, if less(a, m) then a else m);
    }
  }

  lemma FindLeast<T(!new)>(less: (T, T) -> bool, s: set<T>) returns (m: T)
    requires s != {} && StrictTotalOrder(less, s)
    ensures IsLeast(less, s, m)
  {
    LeastExists(less, s);
    m :| IsLeast(less, s, m);
  }

  lemma LeastFirst<T(!new)>(less: (T, T) -> bool, s: set<T>, m: T, rest: seq<T>)
    requires IsLeast(less, s, m)
    requires Elements(rest) == s - {m} && |rest| == |s - {m}| && Increasing(less, rest)
    ensures Elements([m] + rest) == s && |[m] + rest| == |s| && Increasing(less, [m] + rest)
  {
    var q := [m] + rest;
    assert Elements(q) == {m} + Elements(rest);
    forall i, j | 0 <= i < j < |q| ensures less(q[i], q[j]) {
      assert q[j] == rest[j - 1] && rest[j - 1] in Elements(rest);
    }
  }

  lemma OrderOnSubset<T(!new)>(less: (T, T) -> bool, s: set<T>, t: set<T>)
    requires StrictTotalOrder(less, s) && t <= s
    ensures StrictTotalOrder(less, t)
  {}

  /** The rows of `s` in the order `less`. */
  ghost function Sort<T(!new)>(less: (T, T) -> bool, s: set<T>): (q: seq<T>)
    requires StrictTotalOrder(less, s)
    ensures Elements(q) == s && |q| == |s| && Increasing(less, q)
  {
    hide StrictTotalOrder, IsLeast, Increasing, Elements;
    if s == {} then EmptySort(less, s); []
    else
      LeastExists(less, s);
      var m :| IsLeast(less, s, m);
      LeastIn(less, s, m);
      OrderOnSubset(less, s, s - {m});
      LeastFirst(less, s, m, Sort(less, s - {m}));
      [m] + Sort(less, s - {m})
  }

  lemma EmptySort<T(!new)>(less: (T, T) -> bool, s: set<T>)
    ensures Elements<T>([]) == {} && Increasing(less, [])
  {}

  lemma LeastIn<T(!new)>(less: (T, T) -> bool, s: set<T>, m: T)
    requires IsLeast(less, s, m)
    ensures m in s
  {}

  /** An increasing enumeration starts with the least element and goes on with the others. */
  lemma IncreasingCons<T(!new)>(less: (T, T) -> bool, s: set<T>, q: seq<T>)
    requires s != {} && StrictTotalOrder(less, s)
    requires Elements(q) == s && Increasing(less, q)
    ensures |q| > 0 && IsLeast(less, s, q[0])
    ensures Elements(q[1..]) == s - {q[0]} && Increasing(less, q[1..])
  {
    var a :| a in s;
    assert a in q;
    assert q[0] in s;
    forall x | x in s && x != q[0] ensures less(q[0], x) && x in q[1..] {
      var i :| 0 <= i < |q| && q[i] == x;
      assert q[1..][i - 1] == x;
    }
    forall x | x in q[1..] ensures x in s && x != q[0] {
      var i :| 1 <= i < |q| && q[i] == x;
      assert less(q[0], q[i]) && x in q;
    }
  }

  /** A strictly increasing enumeration of a set is its sort. */
  lemma {:induction false} SortUnique<T(!new)>(less: (T, T) -> bool, s: set<T>, q: seq<T>)
    requires StrictTotalOrder(less, s)
    requires Elements(q) == s && Increasing(less, q)
    ensures q == Sort(less, s)
    decreases s
  {
    if s == {} {
      assert forall i | 0 <= i < |q| :: q[i] in Elements(q);
    } else {
      IncreasingCons(less, s, q);
      IncreasingCons(less, s, Sort(less, s));
      var m := q[0];
      assert Sort(less, s)[0] == m;
      SortUnique(less, s - {m}, q[1..]);
      SortUnique(less, s - {m}, Sort(less, s)[1..]);
      assert q == [m] + q[1..];
      assert Sort(less, s) == [m] + Sort(less, s)[1..];
    }
  }

  /** A row that comes after all the others is sorted last. */
  lemma SortAppend<T(!new)>(less: (T, T) -> bool, s: set<T>, x: T)
    requires StrictTotalOrder(less, s + {x}) && forall y | y in s :: less(y, x)
    ensures StrictTotalOrder(less, s) && Sort(less, s + {x}) == Sort(less, s) + [x]
  {
    OrderOnSubset(less, s + {x}, s);
    var q := Sort(less, s);
    forall i, j | 0 <= i < j < |q + [x]| ensures less((q + [x])[i], (q + [x])[j]) {
      assert q[i] in Elements(q);
      if j < |q| { assert less(q[i], q[j]); }
    }
    assert Elements(q + [x]) == Elements(q) + {x};
    hide StrictTotalOrder;
    SortUnique(less, s + {x}, q + [x]);
  }

  /** Increasing sequences repeat nothing. */
  lemma IncreasingDistinct<T(!new)>(less: (T, T) -> bool, q: seq<T>)
    requires Increasing(less, q)
    requires forall x | x in q :: !less(x, x)
    ensures Distinct(q)
  {
    forall i, j | 0 <= i < j < |q| ensures q[i] != q[j] {
      assert less(q[i], q[j]) && q[i] in q;
    }
  }

  /** A sequence without repeats has as many entries as elements, and conversely. */
  lemma {:induction false} DistinctSize<T>(q: seq<T>)
    ensures |Elements(q)| <= |q|
    ensures Distinct(q) <==> |Elements(q)| == |q|
  {
    if q != [] {
      var n := |q| - 1;
      DistinctSize(q[..n]);
      assert q == q[..n] + [q[n]];
      assert Elements(q) == Elements(q[..n]) + {q[n]};
      if q[n] in q[..n] {
        assert Elements(q) == Elements(q[..n]);
        var i :| 0 <= i < n && q[i] == q[n];
      } else {
        assert |Elements(q)| == |Elements(q[..n])| + 1;
        if Distinct(q[..n]) {
          forall i, j | 0 <= i < j < |q| ensures q[i] != q[j] {
            assert j < n ==> q[..n][i] != q[..n][j];
            assert j == n ==> q[i] in q[..n];
          }
        }
      }
    }
  }
}
