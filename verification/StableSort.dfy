/** The stable sort that `sort_by` and `sort_by_key` perform on a vector. */
module StableSort {

  ghost predicate TotalPreorder<T(!new)>(leq: (T, T) -> bool) {
    && (forall a, b :: leq(a, b) || leq(b, a))
    && (forall a, b, c :: leq(a, b) && leq(b, c) ==> leq(a, c))
  }

  ghost predicate Sorted<T>(s: seq<T>, leq: (T, T) -> bool) {
    forall i, j :: 0 <= i < j < |s| ==> leq(s[i], s[j])
  }

  predicate Tied<T>(leq: (T, T) -> bool, a: T, b: T) {
    leq(a, b) && leq(b, a)
  }

  /** The elements of s that tie with x, in the order s lists them. */
  function TiesOf<T>(s: seq<T>, leq: (T, T) -> bool, x: T): seq<T> {
    if s == [] then []
    else TiesOf(s[..|s| - 1], leq, x) + if Tied(leq, s[|s| - 1], x) then [s[|s| - 1]] else []
  }

  /** r is a sorted rearrangement of s in which tied elements keep their order. */
  ghost predicate StablySorts<T(!new)>(s: seq<T>, leq: (T, T) -> bool, r: seq<T>) {
    && multiset(r) == multiset(s)
    && Sorted(r, leq)
    && forall x :: TiesOf(r, leq, x) == TiesOf(s, leq, x)
  }

  /** Puts x after every element that may precede it. */
  function Insert<T>(s: seq<T>, leq: (T, T) -> bool, x: T): (r: seq<T>)
    ensures multiset(r) == multiset(s) + multiset{x}
  {
    if s == [] then [x]
    else
      assert s == s[..|s| - 1] + [s[|s| - 1]];
      if leq(s[|s| - 1], x) then s + [x]
      else Insert(s[..|s| - 1], leq, x) + [s[|s| - 1]]
  }

  function Sort<T>(s: seq<T>, leq: (T, T) -> bool): (r: seq<T>)
    ensures multiset(r) == multiset(s)
    ensures |r| == |s|
  {
    if s == [] then []
    else
      assert s == s[..|s| - 1] + [s[|s| - 1]];
      var r := Insert(Sort(s[..|s| - 1], leq), leq, s[|s| - 1]);
      assert |multiset(r)| == |multiset(s)|;
      r
  }

  lemma {:induction false} InsertSorts<T(!new)>(s: seq<T>, leq: (T, T) -> bool, x: T)
    requires TotalPreorder(leq) && Sorted(s, leq)
    ensures Sorted(Insert(s, leq, x), leq)
  {
    if s != [] && !leq(s[|s| - 1], x) {
      var front, last := s[..|s| - 1], s[|s| - 1];
      InsertSorts(front, leq, x);
      var r := Insert(front, leq, x);
      forall i | 0 <= i < |r| ensures leq(r[i], last) {
        assert r[i] in multiset(r);
      }
    } else if s != [] {
      forall i | 0 <= i < |s| ensures leq(s[i], x) {
        assert i == |s| - 1 || leq(s[i], s[|s| - 1]);
      }
    }
  }

  lemma {:induction false} InsertKeepsTies<T(!new)>(s: seq<T>, leq: (T, T) -> bool, x: T, y: T)
    requires TotalPreorder(leq)
    ensures TiesOf(Insert(s, leq, x), leq, y) == TiesOf(s + [x], leq, y)
  {
    assert (s + [x])[..|s|] == s;
    if s != [] && !leq(s[|s| - 1], x) {
      var front, last := s[..|s| - 1], s[|s| - 1];
      InsertKeepsTies(front, leq, x, y);
      var r := Insert(front, leq, x);
      assert (r + [last])[..|r|] == r;
      assert (front + [x])[..|front|] == front;
    }
  }

  lemma {:induction false} SortIsStable<T(!new)>(s: seq<T>, leq: (T, T) -> bool)
    requires TotalPreorder(leq)
    ensures StablySorts(s, leq, Sort(s, leq))
  {
    if s != [] {
      var front, last := s[..|s| - 1], s[|s| - 1];
      SortIsStable(front, leq);
      var r := Sort(front, leq);
      InsertSorts(r, leq, last);
      forall y ensures TiesOf(Sort(s, leq), leq, y) == TiesOf(s, leq, y) {
        InsertKeepsTies(r, leq, last, y);
        assert (r + [last])[..|r|] == r;
      }
    }
  }

  lemma {:induction false} TiesMember<T>(s: seq<T>, leq: (T, T) -> bool, x: T)
    ensures forall t :: t in TiesOf(s, leq, x) ==> t in s && Tied(leq, t, x)
  {
    if s != [] {
      TiesMember(s[..|s| - 1], leq, x);
    }
  }

  /** Two stably sorted rearrangements of one list end in the same element. */
  lemma LastAgrees<T(!new)>(r: seq<T>, t: seq<T>, leq: (T, T) -> bool)
    requires TotalPreorder(leq) && Sorted(r, leq) && Sorted(t, leq)
    requires r != [] && t != [] && multiset(r) == multiset(t)
    requires TiesOf(r, leq, r[|r| - 1]) == TiesOf(t, leq, r[|r| - 1])
    ensures r[|r| - 1] == t[|t| - 1]
  {
    var a, b := r[|r| - 1], t[|t| - 1];
    assert a in multiset(t) && b in multiset(r);
    var i :| 0 <= i < |t| && t[i] == a;
    var j :| 0 <= j < |r| && r[j] == b;
    assert leq(a, b) && leq(b, a);
    var both := TiesOf(r, leq, a);
    assert both == TiesOf(r[..|r| - 1], leq, a) + [a];
    assert both == TiesOf(t[..|t| - 1], leq, a) + [b];
    assert both[|both| - 1] == a && both[|both| - 1] == b;
  }

  /** Dropping a common last element keeps the ties and the elements equal. */
  lemma FrontsAgree<T(!new)>(r: seq<T>, t: seq<T>, leq: (T, T) -> bool, x: T)
    requires r != [] && t != [] && r[|r| - 1] == t[|t| - 1]
    requires TiesOf(r, leq, x) == TiesOf(t, leq, x)
    ensures TiesOf(r[..|r| - 1], leq, x) == TiesOf(t[..|t| - 1], leq, x)
  {
    var both := TiesOf(r, leq, x);
    var last := if Tied(leq, r[|r| - 1], x) then [r[|r| - 1]] else [];
    var a, b := TiesOf(r[..|r| - 1], leq, x), TiesOf(t[..|t| - 1], leq, x);
    assert both == a + last && both == b + last;
    assert a == both[..|both| - |last|] && b == both[..|both| - |last|];
  }

  lemma DropLast<T>(r: seq<T>, t: seq<T>)
    requires r != [] && t != [] && r[|r| - 1] == t[|t| - 1] && multiset(r) == multiset(t)
    ensures multiset(r[..|r| - 1]) == multiset(t[..|t| - 1])
  {
    assert r == r[..|r| - 1] + [r[|r| - 1]] && t == t[..|t| - 1] + [t[|t| - 1]];
    assert multiset(r[..|r| - 1]) == multiset(r) - multiset{r[|r| - 1]};
  }

  /** A stable sort has exactly one result, so Sort is what any stable sort returns. */
  lemma {:induction false} StableSortUnique<T(!new)>(r: seq<T>, t: seq<T>, leq: (T, T) -> bool)
    requires TotalPreorder(leq) && Sorted(r, leq) && Sorted(t, leq)
    requires multiset(r) == multiset(t)
    requires forall x :: TiesOf(r, leq, x) == TiesOf(t, leq, x)
    ensures r == t
  {
    if r == [] || t == [] {
      assert |multiset(r)| == |r| && |multiset(t)| == |t|;
    } else {
      var front, front' := r[..|r| - 1], t[..|t| - 1];
      assert front == front' by {
        LastAgrees(r, t, leq);
        DropLast(r, t);
        forall x ensures TiesOf(front, leq, x) == TiesOf(front', leq, x) {
          FrontsAgree(r, t, leq, x);
        }
        StableSortUnique(front, front', leq);
      }
      LastAgrees(r, t, leq);
      assert r == front + [r[|r| - 1]] && t == front' + [t[|t| - 1]];
    }
  }

  /** Orders that agree on the elements of s sort s alike. */
  lemma {:induction false} SortAgrees<T>(s: seq<T>, leq: (T, T) -> bool, leq': (T, T) -> bool)
    requires forall a, b :: a in s && b in s ==> leq(a, b) == leq'(a, b)
    ensures Sort(s, leq) == Sort(s, leq')
  {
    if s != [] {
      var front := s[..|s| - 1];
      SortAgrees(front, leq, leq');
      var r := Sort(front, leq);
      forall a | a in r ensures a in s {
        assert a in multiset(r);
      }
      InsertAgrees(r, leq, leq', s[|s| - 1]);
    }
  }

  lemma {:induction false} InsertAgrees<T>(s: seq<T>, leq: (T, T) -> bool, leq': (T, T) -> bool, x: T)
    requires forall a :: a in s ==> leq(a, x) == leq'(a, x)
    ensures Insert(s, leq, x) == Insert(s, leq', x)
  {
    if s != [] {
      InsertAgrees(s[..|s| - 1], leq, leq', x);
    }
  }
}
