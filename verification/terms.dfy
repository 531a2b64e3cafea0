/**
 * Terms of the vocabulary and the order in which a bucket keeps them.
 *
 * A bucket is sorted by the reverse-weight comparator (heaviest first) with a
 * stable sort, so terms of equal weight stay in the order they were added.
 * `StableSort` is that sort written as an insertion sort; `StableSortIsUnique`
 * shows that every stable descending-weight sort yields the same sequence.
 */
module Terms {

  /** A candidate suggestion: a word and its weight. */
  datatype Term = Term(word: string, weight: int)

  /** `s` is non-increasing in weight: heavier terms come first. */
  ghost predicate SortedByWeight(s: seq<Term>) {
    forall i, j :: 0 <= i < j < |s| ==> s[i].weight >= s[j].weight
  }

  /** The terms of `s` whose weight is `w`, in the order of `s`. */
  function WithWeight(s: seq<Term>, w: int): (r: seq<Term>)
    ensures |r| <= |s|
  {
    if s == [] then []
    else WithWeight(s[..|s| - 1], w) + (if s[|s| - 1].weight == w then [s[|s| - 1]] else [])
  }

  /** `a` and `b` hold the same terms of each weight, in the same order. */
  ghost predicate SameOrderPerWeight(a: seq<Term>, b: seq<Term>) {
    forall w :: WithWeight(a, w) == WithWeight(b, w)
  }

  /**
   * Inserts `t` into the descending-weight sequence `s` after every term at
   * least as heavy as `t`, which is where a stable sort puts the later term.
   */
  function Insert(s: seq<Term>, t: Term): (r: seq<Term>)
    ensures |r| == |s| + 1
    ensures multiset(r) == multiset(s) + multiset{t}
    ensures r[|r| - 1] == t || (s != [] && r[|r| - 1] == s[|s| - 1])
  {
    if s == [] || s[|s| - 1].weight >= t.weight then s + [t]
    else
      assert s == s[..|s| - 1] + [s[|s| - 1]];
      Insert(s[..|s| - 1], t) + [s[|s| - 1]]
  }

  /** A stable sort of `s` by descending weight (insertion sort). */
  function StableSort(s: seq<Term>): (r: seq<Term>)
    ensures |r| == |s|
    ensures multiset(r) == multiset(s)
  {
    if s == [] then []
    else
      assert s == s[..|s| - 1] + [s[|s| - 1]];
      Insert(StableSort(s[..|s| - 1]), s[|s| - 1])
  }

  lemma {:induction false} WithWeightMember(s: seq<Term>, w: int, t: Term)
    requires t in WithWeight(s, w)
    ensures t in s && t.weight == w
  {
    var init := s[..|s| - 1];
    if t in WithWeight(init, w) {
      WithWeightMember(init, w, t);
      assert s == init + [s[|s| - 1]];
    }
  }

  lemma {:induction false} WithWeightAppend(s: seq<Term>, x: Term, w: int)
    ensures WithWeight(s + [x], w) == WithWeight(s, w) + (if x.weight == w then [x] else [])
  {
    assert (s + [x])[..|s|] == s;
  }

  lemma {:induction false} InsertKeepsSorted(s: seq<Term>, t: Term)
    requires SortedByWeight(s)
    ensures SortedByWeight(Insert(s, t))
  {
    if s == [] || s[|s| - 1].weight >= t.weight {
    } else {
      var init, last := s[..|s| - 1], s[|s| - 1];
      InsertKeepsSorted(init, t);
      var r' := Insert(init, t);
      forall i | 0 <= i < |r'|
        ensures r'[i].weight >= last.weight
      {
        assert r'[i] in multiset(r');
        if r'[i] != t {
          assert r'[i] in multiset(init);
          var j :| 0 <= j < |init| && init[j] == r'[i];
          assert s[j] == init[j];
        }
      }
    }
  }

  /** The insertion sort produces a non-increasing sequence. */
  lemma {:induction false} StableSortSorted(s: seq<Term>)
    ensures SortedByWeight(StableSort(s))
  {
    if s != [] {
      StableSortSorted(s[..|s| - 1]);
      InsertKeepsSorted(StableSort(s[..|s| - 1]), s[|s| - 1]);
    }
  }

  lemma {:induction false} InsertWithWeight(s: seq<Term>, t: Term, w: int)
    ensures WithWeight(Insert(s, t), w) == WithWeight(s, w) + (if t.weight == w then [t] else [])
  {
    if s == [] || s[|s| - 1].weight >= t.weight {
      WithWeightAppend(s, t, w);
    } else {
      var init, last := s[..|s| - 1], s[|s| - 1];
      assert s == init + [last];
      assert Insert(s, t) == Insert(init, t) + [last];
      InsertWithWeight(init, t, w);
      WithWeightAppend(Insert(init, t), last, w);
      WithWeightAppend(init, last, w);
      var tw: seq<Term> := if t.weight == w then [t] else [];
      var lw: seq<Term> := if last.weight == w then [last] else [];
      assert tw == [] || lw == [];
      var ws := WithWeight(init, w);
      assert WithWeight(Insert(s, t), w) == ws + tw + lw;
      assert WithWeight(s, w) == ws + lw;
      if tw == [] {
        assert ws + tw == ws;
        assert ws + lw + tw == ws + lw;
      } else {
        assert lw == [];
        assert ws + tw + lw == ws + tw;
        assert ws + lw == ws;
      }
    }
  }

  /**
   * Stability: for every weight, the terms of that weight appear in the
   * sorted sequence in exactly the order they had in the input.
   */
  lemma {:induction false} StableSortKeepsOrderOfEqualWeights(s: seq<Term>, w: int)
    ensures WithWeight(StableSort(s), w) == WithWeight(s, w)
  {
    if s != [] {
      var init, last := s[..|s| - 1], s[|s| - 1];
      assert s == init + [last];
      assert StableSort(s) == Insert(StableSort(init), last);
      StableSortKeepsOrderOfEqualWeights(init, w);
      InsertWithWeight(StableSort(init), last, w);
      WithWeightAppend(init, last, w);
    }
  }

  /** The last term of a non-empty sequence is the last one of its weight. */
  lemma {:induction false} LastOfItsWeight(s: seq<Term>)
    requires s != []
    ensures WithWeight(s, s[|s| - 1].weight) == WithWeight(s[..|s| - 1], s[|s| - 1].weight) + [s[|s| - 1]]
  {
    assert s == s[..|s| - 1] + [s[|s| - 1]];
    WithWeightAppend(s[..|s| - 1], s[|s| - 1], s[|s| - 1].weight);
  }

  lemma {:induction false} LightestTermsAgree(a: seq<Term>, b: seq<Term>)
    requires a != [] && b != []
    requires SortedByWeight(a) && SortedByWeight(b)
    requires SameOrderPerWeight(a, b)
    ensures a[|a| - 1] == b[|b| - 1]
  {
    var x, y := a[|a| - 1], b[|b| - 1];
    LastOfItsWeight(a);
    LastOfItsWeight(b);
    // The lightest weight of each sequence also occurs in the other one.
    var u := WithWeight(b, x.weight)[0];
    WithWeightMember(b, x.weight, u);
    var v := WithWeight(a, y.weight)[0];
    WithWeightMember(a, y.weight, v);
    assert x.weight == y.weight;
    var wa, wb := WithWeight(a[..|a| - 1], x.weight), WithWeight(b[..|b| - 1], x.weight);
    assert WithWeight(a, x.weight) == WithWeight(b, x.weight);
    assert (wa + [x])[|wa|] == x;
  }

  lemma {:induction false} DropLastKeepsWeights(a: seq<Term>, b: seq<Term>)
    requires a != [] && b != [] && a[|a| - 1] == b[|b| - 1]
    requires SameOrderPerWeight(a, b)
    ensures SameOrderPerWeight(a[..|a| - 1], b[..|b| - 1])
  {
    var a', b', x := a[..|a| - 1], b[..|b| - 1], a[|a| - 1];
    assert a == a' + [x] && b == b' + [x];
    forall w
      ensures WithWeight(a', w) == WithWeight(b', w)
    {
      WithWeightAppend(a', x, w);
      WithWeightAppend(b', x, w);
      assert WithWeight(a, w) == WithWeight(b, w);
      var pa, pb := WithWeight(a', w), WithWeight(b', w);
      if x.weight == w {
        assert pa + [x] == pb + [x];
        assert |pa| == |pb|;
        assert pa == (pa + [x])[..|pa|];
        assert pb == (pb + [x])[..|pb|];
        assert pa == pb;
      } else {
        assert pa + [] == pa && pb + [] == pb;
        assert pa + [] == pb + [];
      }
    }
  }

  lemma {:induction false} SortedEqualByWeightAreEqual(a: seq<Term>, b: seq<Term>)
    requires SortedByWeight(a) && SortedByWeight(b)
    requires SameOrderPerWeight(a, b)
    ensures a == b
    decreases |a|
  {
    if a == [] && b == [] {
    } else if a == [] {
      LastOfItsWeight(b);
      assert false;
    } else if b == [] {
      LastOfItsWeight(a);
      assert false;
    } else {
      LightestTermsAgree(a, b);
      DropLastKeepsWeights(a, b);
      SortedEqualByWeightAreEqual(a[..|a| - 1], b[..|b| - 1]);
      assert a == a[..|a| - 1] + [a[|a| - 1]];
      assert b == b[..|b| - 1] + [b[|b| - 1]];
    }
  }

  /**
   * Any non-increasing sequence that keeps the input order among terms of
   * equal weight is `StableSort` of the input: the result of a stable
   * descending-weight sort does not depend on the sorting algorithm.
   */
  lemma {:induction false} StableSortIsUnique(s: seq<Term>, r: seq<Term>)
    requires SortedByWeight(r)
    requires SameOrderPerWeight(r, s)
    ensures r == StableSort(s)
  {
    StableSortSorted(s);
    forall w
      ensures WithWeight(r, w) == WithWeight(StableSort(s), w)
    {
      StableSortKeepsOrderOfEqualWeights(s, w);
    }
    SortedEqualByWeightAreEqual(r, StableSort(s));
  }
}
