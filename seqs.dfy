/** Order-preserving subsequences, the shape of every `filter` result in the model. */
module Seqs {

  /** `xs` is obtained from `ys` by deleting elements, keeping the order of the rest. */
  ghost predicate Subseq<T>(xs: seq<T>, ys: seq<T>)
    decreases |ys|
  {
    if xs == [] then true
    else if ys == [] then false
    else (xs[|xs| - 1] == ys[|ys| - 1] && Subseq(xs[..|xs| - 1], ys[..|ys| - 1]))
         || Subseq(xs, ys[..|ys| - 1])
  }

  lemma {:induction false} SubseqRefl<T>(xs: seq<T>)
    ensures Subseq(xs, xs)
    decreases |xs|
  {
    if xs != [] {
      SubseqRefl(xs[..|xs| - 1]);
    }
  }

  /** Every element of a subsequence is an element of the sequence it came from. */
  lemma {:induction false} SubseqMembers<T>(xs: seq<T>, ys: seq<T>)
    requires Subseq(xs, ys)
    ensures forall x :: x in xs ==> x in ys
    decreases |ys|
  {
    if xs != [] {
      var xs', ys' := xs[..|xs| - 1], ys[..|ys| - 1];
      if xs[|xs| - 1] == ys[|ys| - 1] && Subseq(xs', ys') {
        SubseqMembers(xs', ys');
        assert xs == xs' + [xs[|xs| - 1]];
        assert ys == ys' + [ys[|ys| - 1]];
      } else {
        SubseqMembers(xs, ys');
        assert ys == ys' + [ys[|ys| - 1]];
      }
    }
  }

  lemma {:induction false} SubseqLength<T>(xs: seq<T>, ys: seq<T>)
    requires Subseq(xs, ys)
    ensures |xs| <= |ys|
    decreases |ys|
  {
    if xs != [] {
      var xs', ys' := xs[..|xs| - 1], ys[..|ys| - 1];
      if xs[|xs| - 1] == ys[|ys| - 1] && Subseq(xs', ys') {
        SubseqLength(xs', ys');
      } else {
        SubseqLength(xs, ys');
      }
    }
  }

  /** Keeping or dropping the last element of `ys` on top of a subsequence of its front. */
  lemma SubseqExtend<T>(xs: seq<T>, ys: seq<T>, y: T, keep: bool)
    requires Subseq(xs, ys)
    ensures Subseq(xs + (if keep then [y] else []), ys + [y])
  {
    var ys2 := ys + [y];
    assert ys2[..|ys2| - 1] == ys;
    if keep {
      var xs2 := xs + [y];
      assert xs2[..|xs2| - 1] == xs;
    } else {
      assert xs + [] == xs;
    }
  }

  /** `xs.filter(p)`: the elements of `xs` satisfying `p`, in order. */
  function Filter<T(!new)>(p: T -> bool, xs: seq<T>): (r: seq<T>)
    ensures forall x {:trigger x in r} :: x in r <==> x in xs && p(x)
    ensures |r| <= |xs|
  {
    if xs == [] then []
    else
      var front, x := xs[..|xs| - 1], xs[|xs| - 1];
      assert xs == front + [x];
      Filter(p, front) + if p(x) then [x] else []
  }

  /** Each element passing `p` is kept as often as it occurs, every other element not at all. */
  lemma {:induction false} FilterCounts<T(!new)>(p: T -> bool, xs: seq<T>)
    ensures forall x :: multiset(Filter(p, xs))[x] == if p(x) then multiset(xs)[x] else 0
  {
    if xs != [] {
      var front, y := xs[..|xs| - 1], xs[|xs| - 1];
      assert xs == front + [y];
      FilterCounts(p, front);
      assert multiset(Filter(p, xs)) == multiset(Filter(p, front)) + multiset(if p(y) then [y] else []);
    }
  }

  lemma {:induction false} FilterInOrder<T(!new)>(p: T -> bool, xs: seq<T>)
    ensures Subseq(Filter(p, xs), xs)
  {
    if xs != [] {
      var front, x := xs[..|xs| - 1], xs[|xs| - 1];
      assert xs == front + [x];
      FilterInOrder(p, front);
      SubseqExtend(Filter(p, front), front, x, p(x));
    }
  }

  /** A filter that every element passes returns its input. */
  lemma {:induction false} FilterKeepsAll<T(!new)>(p: T -> bool, xs: seq<T>)
    requires forall x :: x in xs ==> p(x)
    ensures Filter(p, xs) == xs
  {
    if xs != [] {
      var front, x := xs[..|xs| - 1], xs[|xs| - 1];
      assert xs == front + [x];
      assert forall y :: y in front ==> y in xs;
      FilterKeepsAll(p, front);
    }
  }

  /** A filter that no element passes returns nothing. */
  lemma {:induction false} FilterKeepsNone<T(!new)>(p: T -> bool, xs: seq<T>)
    requires forall x :: x in xs ==> !p(x)
    ensures Filter(p, xs) == []
  {
    if xs != [] {
      var front := xs[..|xs| - 1];
      assert forall y :: y in front ==> y in xs;
      FilterKeepsNone(p, front);
      assert xs[|xs| - 1] in xs;
    }
  }

  lemma {:induction false} SubseqTrans<T>(xs: seq<T>, ys: seq<T>, zs: seq<T>)
    requires Subseq(xs, ys) && Subseq(ys, zs)
    ensures Subseq(xs, zs)
    decreases |zs|
  {
    if xs != [] {
      var xs', ys', zs' := xs[..|xs| - 1], ys[..|ys| - 1], zs[..|zs| - 1];
      if ys[|ys| - 1] == zs[|zs| - 1] && Subseq(ys', zs') {
        if xs[|xs| - 1] == ys[|ys| - 1] && Subseq(xs', ys') {
          SubseqTrans(xs', ys', zs');
        } else {
          SubseqTrans(xs, ys', zs');
        }
      } else {
        SubseqTrans(xs, ys, zs');
      }
    }
  }

  lemma SubseqEmpty<T>(ys: seq<T>)
    ensures Subseq([], ys)
  {
  }

  /** Filtering distributes over concatenation. */
  lemma {:induction false} FilterAppend<T(!new)>(p: T -> bool, xs: seq<T>, ys: seq<T>)
    ensures Filter(p, xs + ys) == Filter(p, xs) + Filter(p, ys)
    decreases |ys|
  {
    if ys == [] {
      assert xs + ys == xs;
    } else {
      var front, y := ys[..|ys| - 1], ys[|ys| - 1];
      assert xs + ys == (xs + front) + [y];
      assert ys == front + [y];
      FilterAppend(p, xs, front);
    }
  }

  /** A filter that rejects exactly the element at `i` removes just that element. */
  lemma {:induction false} FilterDropsOne<T(!new)>(p: T -> bool, xs: seq<T>, i: nat)
    requires i < |xs| && !p(xs[i])
    requires forall j :: 0 <= j < |xs| && j != i ==> p(xs[j])
    ensures Filter(p, xs) == xs[..i] + xs[i + 1..]
  {
    var n := |xs| - 1;
    var front := xs[..n];
    assert xs == front + [xs[n]];
    if i == n {
      forall x | x in front ensures p(x) {
        var j :| 0 <= j < n && front[j] == x;
      }
      FilterKeepsAll(p, front);
      assert xs[i + 1..] == [];
    } else {
      FilterDropsOne(p, front, i);
      assert front[..i] == xs[..i];
      assert front[i + 1..] + [xs[n]] == xs[i + 1..];
    }
  }
}
