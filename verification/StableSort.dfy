/** `Array.prototype.sort` with a comparator: a stable sort. `before(a, b)` is `compare(a, b) < 0`. */
module StableSort {

  ghost predicate IsWeakOrder<T(!new)>(before: (T, T) -> bool) {
    && (forall a, b :: before(a, b) ==> !before(b, a))
    && (forall a, b, c :: !before(b, a) && !before(c, b) ==> !before(c, a))
  }

  ghost predicate IsSorted<T(!new)>(s: seq<T>, before: (T, T) -> bool) {
    forall i, j :: 0 <= i < j < |s| ==> !before(s[j], s[i])
  }

  function InsertInto<T>(x: T, s: seq<T>, before: (T, T) -> bool): (r: seq<T>)
    ensures |r| == |s| + 1
  {
    if s != [] && before(s[0], x) then [s[0]] + InsertInto(x, s[1..], before) else [x] + s
  }

  function Sort<T>(s: seq<T>, before: (T, T) -> bool): (r: seq<T>)
    ensures |r| == |s|
  {
    if s == [] then [] else InsertInto(s[0], Sort(s[1..], before), before)
  }

  lemma {:induction false} InsertKeepsElements<T>(x: T, s: seq<T>, before: (T, T) -> bool)
    ensures multiset(InsertInto(x, s, before)) == multiset(s) + multiset{x}
  {
    if s != [] && before(s[0], x) {
      InsertKeepsElements(x, s[1..], before);
      assert s == [s[0]] + s[1..];
    }
  }

  lemma {:induction false} InsertKeepsOrder<T(!new)>(x: T, s: seq<T>, before: (T, T) -> bool)
    requires IsWeakOrder(before) && IsSorted(s, before)
    ensures IsSorted(InsertInto(x, s, before), before)
  {
    if s != [] && before(s[0], x) {
      InsertKeepsOrder(x, s[1..], before);
      InsertKeepsElements(x, s[1..], before);
      var rest := InsertInto(x, s[1..], before);
      forall j | 0 <= j < |rest|
        ensures !before(rest[j], s[0])
      {
        assert rest[j] in multiset(rest);
      }
    } else if s != [] {
      assert !before(s[0], x);
      assert forall j :: 0 < j < |s| ==> !before(s[j], s[0]);
    }
  }

  /** Sorting permutes its input and puts no element after one it should precede. */
  lemma {:induction false} SortIsSorted<T(!new)>(s: seq<T>, before: (T, T) -> bool)
    requires IsWeakOrder(before)
    ensures IsSorted(Sort(s, before), before) && multiset(Sort(s, before)) == multiset(s)
  {
    if s != [] {
      SortIsSorted(s[1..], before);
      InsertKeepsOrder(s[0], Sort(s[1..], before), before);
      InsertKeepsElements(s[0], Sort(s[1..], before), before);
      assert s == [s[0]] + s[1..];
    }
  }

  /** A sorted list stays as it is. */
  lemma {:induction false} SortOfSorted<T(!new)>(s: seq<T>, before: (T, T) -> bool)
    requires IsSorted(s, before)
    ensures Sort(s, before) == s
  {
    if s != [] {
      SortOfSorted(s[1..], before);
      assert s == [s[0]] + s[1..];
    }
  }

  /** The elements that are tied with `x`, in order. */
  function Tied<T>(s: seq<T>, x: T, before: (T, T) -> bool): seq<T> {
    if s == [] then []
    else (if !before(s[0], x) && !before(x, s[0]) then [s[0]] else []) + Tied(s[1..], x, before)
  }

  lemma {:induction false} InsertIsStable<T(!new)>(y: T, s: seq<T>, x: T, before: (T, T) -> bool)
    requires IsWeakOrder(before)
    ensures Tied(InsertInto(y, s, before), x, before) == Tied([y] + s, x, before)
  {
    assert ([y] + s)[1..] == s;
    if s != [] && before(s[0], y) {
      InsertIsStable(y, s[1..], x, before);
      assert ([y] + s[1..])[1..] == s[1..];
      assert InsertInto(y, s, before)[1..] == InsertInto(y, s[1..], before);
    }
  }

  /** Sorting is stable: elements that are tied with each other keep their order. */
  lemma {:induction false} SortIsStable<T(!new)>(s: seq<T>, x: T, before: (T, T) -> bool)
    requires IsWeakOrder(before)
    ensures Tied(Sort(s, before), x, before) == Tied(s, x, before)
  {
    if s != [] {
      SortIsStable(s[1..], x, before);
      InsertIsStable(s[0], Sort(s[1..], before), x, before);
      assert ([s[0]] + Sort(s[1..], before))[1..] == Sort(s[1..], before);
    }
  }

  /** Some occurrence of `x` comes before some occurrence of `y`. */
  ghost predicate ComesFirst<T>(s: seq<T>, x: T, y: T) {
    exists p, q :: 0 <= p < q < |s| && s[p] == x && s[q] == y
  }

  predicate AreTied<T>(x: T, y: T, before: (T, T) -> bool) {
    !before(x, y) && !before(y, x)
  }

  lemma {:induction false} TiedElements<T(!new)>(s: seq<T>, x: T, before: (T, T) -> bool)
    ensures forall y :: y in Tied(s, x, before) <==> y in s && AreTied(x, y, before)
  {
    if s != [] {
      TiedElements(s[1..], x, before);
      assert s == [s[0]] + s[1..];
    }
  }

  lemma {:induction false} TiedOrder<T(!new)>(s: seq<T>, x: T, y: T, before: (T, T) -> bool)
    requires AreTied(x, x, before) && AreTied(x, y, before)
    ensures ComesFirst(s, x, y) <==> ComesFirst(Tied(s, x, before), x, y)
  {
    if s != [] {
      var rest := s[1..];
      TiedOrder(rest, x, y, before);
      TiedElements(rest, x, before);
      FirstOrLater(s, x, y);
      var t := Tied(s, x, before);
      if AreTied(s[0], x, before) {
        assert t[1..] == Tied(rest, x, before);
        FirstOrLater(t, x, y);
      } else {
        assert t == Tied(rest, x, before);
      }
    }
  }

  lemma {:induction false} FirstOrLater<T>(s: seq<T>, x: T, y: T)
    requires s != []
    ensures ComesFirst(s, x, y) <==> (s[0] == x && y in s[1..]) || ComesFirst(s[1..], x, y)
  {
    if ComesFirst(s, x, y) {
      var p, q :| 0 <= p < q < |s| && s[p] == x && s[q] == y;
      assert s[1..][q - 1] == y;
      if p > 0 {
        assert s[1..][p - 1] == x;
      }
    }
    if s[0] == x && y in s[1..] {
      var q :| 0 <= q < |s[1..]| && s[1..][q] == y;
      assert s[q + 1] == y;
    }
    if ComesFirst(s[1..], x, y) {
      var p, q :| 0 <= p < q < |s[1..]| && s[1..][p] == x && s[1..][q] == y;
      assert s[p + 1] == x && s[q + 1] == y;
    }
  }

  /** Of two tied elements, the one that comes first in the result came first in the input. */
  lemma {:induction false} TiesKeepOrder<T(!new)>(s: seq<T>, before: (T, T) -> bool, i: nat, j: nat)
    requires IsWeakOrder(before) && i < j < |s| && AreTied(Sort(s, before)[i], Sort(s, before)[j], before)
    ensures ComesFirst(s, Sort(s, before)[i], Sort(s, before)[j])
  {
    hide Sort;
    var r := Sort(s, before);
    SortIsStable(s, r[i], before);
    assert ComesFirst(r, r[i], r[j]);
    TiedOrder(r, r[i], r[j], before);
    TiedOrder(s, r[i], r[j], before);
  }

  lemma {:induction false} SameElements<T>(s: seq<T>, t: seq<T>)
    requires multiset(s) == multiset(t)
    ensures |s| == |t| && forall x :: x in s <==> x in t
  {
    assert |multiset(s)| == |s| && |multiset(t)| == |t|;
    forall x
      ensures x in s <==> x in t
    {
      assert x in s <==> x in multiset(s);
    }
  }
}
