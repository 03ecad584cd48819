/** Optional values and the list vocabulary shared by the other modules. */
module Seqs {

  datatype Option<+T> = None | Some(value: T)

  function Flatten<T>(groups: seq<seq<T>>): seq<T> {
    if groups == [] then [] else groups[0] + Flatten(groups[1..])
  }

  lemma {:induction false} Associative<T>(a: seq<T>, b: seq<T>, c: seq<T>)
    ensures (a + b) + c == a + (b + c)
  {
  }

  lemma {:induction false} FlattenAppend<T>(xs: seq<seq<T>>, ys: seq<seq<T>>)
    ensures Flatten(xs + ys) == Flatten(xs) + Flatten(ys)
  {
    if xs == [] {
      assert xs + ys == ys;
    } else {
      FlattenAppend(xs[1..], ys);
      assert (xs + ys)[0] == xs[0] && (xs + ys)[1..] == xs[1..] + ys;
      Associative(xs[0], Flatten(xs[1..]), Flatten(ys));
    }
  }

  lemma {:induction false} FlattenSingle<T>(g: seq<T>)
    ensures Flatten([g]) == g
  {
    assert [g][1..] == [];
  }

  /** Where group `i` starts in the flattened list. */
  function Cut<T>(groups: seq<seq<T>>, i: nat): nat
    requires i <= |groups|
  {
    |Flatten(groups[..i])|
  }

  lemma {:induction false} GroupIsSlice<T>(groups: seq<seq<T>>, i: nat)
    requires i < |groups|
    ensures Cut(groups, i + 1) == Cut(groups, i) + |groups[i]| <= |Flatten(groups)|
    ensures Flatten(groups)[Cut(groups, i)..Cut(groups, i + 1)] == groups[i]
  {
    FlattenAppend(groups[..i], [groups[i]]);
    FlattenSingle(groups[i]);
    assert groups[..i + 1] == groups[..i] + [groups[i]];
    FlattenAppend(groups[..i + 1], groups[i + 1..]);
    assert groups == groups[..i + 1] + groups[i + 1..];
  }

  lemma {:induction false} CutsIncrease<T>(groups: seq<seq<T>>, i: nat, j: nat)
    requires i <= j <= |groups|
    ensures Cut(groups, i) <= Cut(groups, j)
  {
    if i < j {
      CutsIncrease(groups, i, j - 1);
      GroupIsSlice(groups, j - 1);
    }
  }

  /** Every element of the flattened list lies in some group. */
  lemma {:induction false} FindGroup<T>(groups: seq<seq<T>>, at: nat, upTo: nat) returns (i: nat)
    requires upTo <= |groups| && at < Cut(groups, upTo)
    ensures i < upTo && Cut(groups, i) <= at < Cut(groups, i + 1)
  {
    GroupIsSlice(groups, upTo - 1);
    if at >= Cut(groups, upTo - 1) {
      i := upTo - 1;
    } else {
      i := FindGroup(groups, at, upTo - 1);
    }
  }

  function Map<A, B>(f: A -> B, xs: seq<A>): (r: seq<B>)
    ensures |r| == |xs|
    ensures forall i :: 0 <= i < |xs| ==> r[i] == f(xs[i])
  {
    seq(|xs|, i requires 0 <= i < |xs| => f(xs[i]))
  }

  /** `[...new Set(xs)]`: the different elements in the order in which they first occur. */
  function Firsts<T(==)>(xs: seq<T>): seq<T> {
    if xs == [] then []
    else
      var front, x := xs[..|xs| - 1], xs[|xs| - 1];
      if x in front then Firsts(front) else Firsts(front) + [x]
  }

  /** Element `x` occurs in `xs`, and `y` does not up to there. */
  ghost predicate OccursBefore<T>(xs: seq<T>, x: T, y: T) {
    exists p :: 0 <= p < |xs| && xs[p] == x && y !in xs[..p + 1]
  }

  lemma {:induction false} FirstsInOrder<T>(xs: seq<T>)
    ensures forall x :: x in Firsts(xs) ==> x in xs
    ensures forall x :: x in xs ==> x in Firsts(xs)
    ensures forall i, j :: 0 <= i < j < |Firsts(xs)| ==> OccursBefore(xs, Firsts(xs)[i], Firsts(xs)[j])
  {
    if xs != [] {
      var front, x := xs[..|xs| - 1], xs[|xs| - 1];
      FirstsInOrder(front);
      assert xs == front + [x];
      forall i, j | 0 <= i < j < |Firsts(xs)|
        ensures OccursBefore(xs, Firsts(xs)[i], Firsts(xs)[j])
      {
        var u, v := Firsts(xs)[i], Firsts(xs)[j];
        assert Firsts(front)[i] == u;
        assert u in Firsts(front) && u in front;
        if v in front {
          assert OccursBefore(front, Firsts(front)[i], Firsts(front)[j]);
          var p :| 0 <= p < |front| && front[p] == u && v !in front[..p + 1];
          assert xs[..p + 1] == front[..p + 1] && xs[p] == u;
        } else {
          var p :| 0 <= p < |front| && front[p] == u;
          assert xs[..p + 1] == front[..p + 1] && xs[p] == u;
        }
      }
    }
  }

  /** `xs` can be obtained from `ys` by deleting elements. */
  ghost predicate IsSubsequence<T>(xs: seq<T>, ys: seq<T>)
    decreases |ys|
  {
    || xs == []
    || (ys != [] && xs[0] == ys[0] && IsSubsequence(xs[1..], ys[1..]))
    || (ys != [] && IsSubsequence(xs, ys[1..]))
  }

  lemma {:induction false} SubsequenceTail<T>(xs: seq<T>, ys: seq<T>)
    requires IsSubsequence(xs, ys) && xs != []
    ensures IsSubsequence(xs[1..], ys)
    decreases |ys|
  {
    if !(xs[0] == ys[0] && IsSubsequence(xs[1..], ys[1..])) {
      SubsequenceTail(xs, ys[1..]);
    }
  }

  lemma {:induction false} SubsequenceOfItself<T>(xs: seq<T>)
    ensures IsSubsequence(xs, xs)
  {
    if xs != [] {
      SubsequenceOfItself(xs[1..]);
    }
  }

  lemma {:induction false} SubsequenceLength<T>(xs: seq<T>, ys: seq<T>)
    requires IsSubsequence(xs, ys)
    ensures |xs| <= |ys|
    ensures |xs| == |ys| ==> xs == ys
    decreases |ys|
  {
    if xs != [] {
      if xs[0] == ys[0] && IsSubsequence(xs[1..], ys[1..]) {
        SubsequenceLength(xs[1..], ys[1..]);
      } else {
        SubsequenceLength(xs, ys[1..]);
      }
    }
  }

  lemma {:induction false} SubsequenceElements<T>(xs: seq<T>, ys: seq<T>)
    requires IsSubsequence(xs, ys)
    ensures forall x :: x in xs ==> x in ys
    decreases |ys|
  {
    if xs != [] {
      if xs[0] == ys[0] && IsSubsequence(xs[1..], ys[1..]) {
        SubsequenceElements(xs[1..], ys[1..]);
        assert forall x :: x in xs ==> x == xs[0] || x in xs[1..];
      } else {
        SubsequenceElements(xs, ys[1..]);
      }
    }
  }

  lemma {:induction false} SubsequenceConcat<T>(xs: seq<T>, ys: seq<T>, us: seq<T>, vs: seq<T>)
    requires IsSubsequence(xs, ys) && IsSubsequence(us, vs)
    ensures IsSubsequence(xs + us, ys + vs)
    decreases |ys|
  {
    if ys == [] {
      assert xs + us == us && ys + vs == vs;
    } else if xs == [] {
      SubsequenceConcat(xs, ys[1..], us, vs);
      assert (ys + vs)[1..] == ys[1..] + vs;
    } else if xs[0] == ys[0] && IsSubsequence(xs[1..], ys[1..]) {
      SubsequenceConcat(xs[1..], ys[1..], us, vs);
      assert (xs + us)[1..] == xs[1..] + us && (ys + vs)[1..] == ys[1..] + vs;
    } else {
      SubsequenceConcat(xs, ys[1..], us, vs);
      assert (ys + vs)[1..] == ys[1..] + vs;
    }
  }
}
