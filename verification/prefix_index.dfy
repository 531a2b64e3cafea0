/**
 * What the hash-bucket prefix index means, stated on values.
 *
 * The index maps every prefix of at most `MAX_PREFIX` characters of a
 * vocabulary word to a bucket: the vocabulary terms whose word starts with
 * that prefix, in input order, then stably sorted heaviest first. A query
 * returns the first `k` terms of a bucket, and the byte estimate sums a cost
 * per key and a cost per bucket entry.
 */
module PrefixIndex {
  import opened Terms

  /** The longest prefix the index keeps a bucket for. */
  const MAX_PREFIX := 10
  /** Bytes the estimate charges per character of a key or a word. */
  const BYTES_PER_CHAR := 2
  /** Bytes the estimate charges per weight. */
  const BYTES_PER_DOUBLE := 8

  function Min(a: int, b: int): int {
    if a < b then a else b
  }

  /** `p` is a prefix of `w`, short enough to be a key of the index. */
  predicate Indexed(p: string, w: string) {
    |p| <= MAX_PREFIX && |p| <= |w| && w[..|p|] == p
  }

  /** The terms of `ts` filed under key `p`, in input order. */
  function Matching(ts: seq<Term>, p: string): (r: seq<Term>)
    ensures |r| <= |ts|
  {
    if ts == [] then []
    else Matching(ts[..|ts| - 1], p) + (if Indexed(p, ts[|ts| - 1].word) then [ts[|ts| - 1]] else [])
  }

  /** The bucket under key `p`: the matching terms, heaviest first, stably. */
  function Bucket(ts: seq<Term>, p: string): seq<Term> {
    StableSort(Matching(ts, p))
  }

  /** The answer to a query for the `k` best completions of `p`. */
  function TopK(ts: seq<Term>, p: string, k: nat): seq<Term> {
    var b := Bucket(ts, p);
    b[..Min(k, |b|)]
  }

  /** The input positions whose term is filed under `p`. */
  function MatchingPositions(ts: seq<Term>, p: string): set<nat> {
    set i: nat | i < |ts| && Indexed(p, ts[i].word)
  }

  /** The keys a word is filed under: its prefixes of up to `MAX_PREFIX` characters. */
  function ShortPrefixes(w: string): set<string> {
    set k | 0 <= k <= Min(MAX_PREFIX, |w|) :: w[..k]
  }

  /** The keys of the index of `ts`. */
  function IndexKeys(ts: seq<Term>): set<string> {
    if ts == [] then {} else IndexKeys(ts[..|ts| - 1]) + ShortPrefixes(ts[|ts| - 1].word)
  }

  /** The map built from `ts` before its buckets are sorted. */
  function UnsortedIndex(ts: seq<Term>): map<string, seq<Term>> {
    map p | p in IndexKeys(ts) :: Matching(ts, p)
  }

  /** The index built from `ts`: each key with its sorted bucket. */
  function Index(ts: seq<Term>): map<string, seq<Term>> {
    map p | p in IndexKeys(ts) :: Bucket(ts, p)
  }

  // ---------------------------------------------------------------------
  // Membership of buckets

  lemma {:induction false} MatchingAppend(ts: seq<Term>, t: Term, p: string)
    ensures Matching(ts + [t], p) == Matching(ts, p) + (if Indexed(p, t.word) then [t] else [])
  {
    assert (ts + [t])[..|ts|] == ts;
  }

  /** A term is in the bucket of `p` exactly when it is an input term filed under `p`. */
  lemma {:induction false} MatchingMember(ts: seq<Term>, p: string, t: Term)
    ensures t in Matching(ts, p) <==> t in ts && Indexed(p, t.word)
  {
    if ts != [] {
      var init, last := ts[..|ts| - 1], ts[|ts| - 1];
      assert ts == init + [last];
      MatchingMember(init, p, t);
    }
  }

  /**
   * The bucket of `p` holds one entry per input position whose word is filed
   * under `p`: a word given twice is listed twice.
   */
  lemma {:induction false} MatchingCount(ts: seq<Term>, p: string)
    ensures |Matching(ts, p)| == |MatchingPositions(ts, p)|
  {
    if ts != [] {
      var n := |ts| - 1;
      var init, last := ts[..n], ts[n];
      assert ts == init + [last];
      MatchingCount(init, p);
      if Indexed(p, last.word) {
        assert MatchingPositions(ts, p) == MatchingPositions(init, p) + {n};
      } else {
        assert MatchingPositions(ts, p) == MatchingPositions(init, p);
      }
    }
  }

  lemma {:induction false} ShortPrefixesMember(w: string, p: string)
    ensures p in ShortPrefixes(w) <==> Indexed(p, w)
  {
    if Indexed(p, w) {
      assert w[..|p|] in ShortPrefixes(w);
    }
  }

  /** A string is a key of the index exactly when some term is filed under it. */
  lemma {:induction false} IndexKeysMember(ts: seq<Term>, p: string)
    ensures p in IndexKeys(ts) <==> Matching(ts, p) != []
  {
    if ts != [] {
      IndexKeysMember(ts[..|ts| - 1], p);
      ShortPrefixesMember(ts[|ts| - 1].word, p);
    }
  }

  /** Prefix closure: every input term is filed under each of its short prefixes. */
  lemma {:induction false} PrefixClosure(ts: seq<Term>, i: nat, k: nat)
    requires i < |ts| && k <= Min(MAX_PREFIX, |ts[i].word|)
    ensures ts[i] in Matching(ts, ts[i].word[..k])
  {
    MatchingMember(ts, ts[i].word[..k], ts[i]);
  }

  /**
   * Prefix closure of the map itself: each of a term's prefixes of up to
   * `MAX_PREFIX` characters is a key, and its bucket holds the term.
   */
  lemma {:induction false} IndexClosure(ts: seq<Term>, i: nat, k: nat)
    requires i < |ts| && k <= Min(MAX_PREFIX, |ts[i].word|)
    ensures ts[i].word[..k] in Index(ts)
    ensures ts[i] in Index(ts)[ts[i].word[..k]]
  {
    var p := ts[i].word[..k];
    PrefixClosure(ts, i, k);
    IndexKeysMember(ts, p);
    BucketOrdered(ts, p);
    assert ts[i] in multiset(Bucket(ts, p));
  }

  /**
   * A term filed under `p` is in its bucket as many times as it is in the
   * input, and a term not filed under `p` is not in it at all.
   */
  lemma {:induction false} BucketMultiplicity(ts: seq<Term>, p: string, t: Term)
    ensures multiset(Matching(ts, p))[t] == if Indexed(p, t.word) then multiset(ts)[t] else 0
    ensures multiset(Bucket(ts, p))[t] == multiset(Matching(ts, p))[t]
  {
    if ts != [] {
      var init, last := ts[..|ts| - 1], ts[|ts| - 1];
      assert ts == init + [last];
      BucketMultiplicity(init, p, t);
      assert multiset(ts) == multiset(init) + multiset{last};
    }
    BucketOrdered(ts, p);
  }

  /** A key longer than `MAX_PREFIX`, or one that begins no word, has no terms. */
  lemma {:induction false} UnknownPrefix(ts: seq<Term>, p: string)
    requires |p| > MAX_PREFIX || forall i :: 0 <= i < |ts| ==> !(|p| <= |ts[i].word| && ts[i].word[..|p|] == p)
    ensures Matching(ts, p) == []
  {
    if Matching(ts, p) != [] {
      var t := Matching(ts, p)[0];
      MatchingMember(ts, p, t);
      assert false;
    }
  }

  // ---------------------------------------------------------------------
  // Properties of the index

  /** Every key is at most `MAX_PREFIX` long and every bucket is non-empty. */
  lemma {:induction false} IndexKeysAndBuckets(ts: seq<Term>, p: string)
    requires p in Index(ts)
    ensures |p| <= MAX_PREFIX && Index(ts)[p] != []
  {
    IndexKeysMember(ts, p);
    var t := Matching(ts, p)[0];
    MatchingMember(ts, p, t);
  }

  /**
   * A bucket is non-increasing in weight, is a permutation of the terms filed
   * under its key, and keeps terms of equal weight in input order.
   */
  lemma {:induction false} BucketOrdered(ts: seq<Term>, p: string)
    ensures SortedByWeight(Bucket(ts, p))
    ensures multiset(Bucket(ts, p)) == multiset(Matching(ts, p))
    ensures SameOrderPerWeight(Bucket(ts, p), Matching(ts, p))
  {
    StableSortSorted(Matching(ts, p));
    forall w
      ensures WithWeight(Bucket(ts, p), w) == WithWeight(Matching(ts, p), w)
    {
      StableSortKeepsOrderOfEqualWeights(Matching(ts, p), w);
    }
  }

  /**
   * The truncation law: a query returns `min(k, |bucket|)` terms, none for
   * `k == 0`, in bucket order, heaviest first.
   */
  lemma {:induction false} TopKLengthAndOrder(ts: seq<Term>, p: string, k: nat)
    ensures |TopK(ts, p, k)| == Min(k, |Matching(ts, p)|)
    ensures k == 0 ==> TopK(ts, p, k) == []
    ensures TopK(ts, p, k) <= Bucket(ts, p)
    ensures SortedByWeight(TopK(ts, p, k))
  {
    BucketOrdered(ts, p);
  }

  /** Every term a query returns is an input term filed under `p`. */
  lemma {:induction false} TopKMembers(ts: seq<Term>, p: string, k: nat, t: Term)
    requires t in TopK(ts, p, k)
    ensures t in ts && Indexed(p, t.word)
  {
    var b := Bucket(ts, p);
    assert b == TopK(ts, p, k) + b[Min(k, |b|)..];
    assert t in multiset(Matching(ts, p));
    MatchingMember(ts, p, t);
  }

  /**
   * A query returns the heaviest matching terms: every matching term it
   * leaves out is no heavier than any term it returns.
   */
  lemma {:induction false} TopKIsBest(ts: seq<Term>, p: string, k: nat)
    ensures multiset(TopK(ts, p, k)) <= multiset(Matching(ts, p))
    ensures forall t, u :: t in multiset(Matching(ts, p)) - multiset(TopK(ts, p, k)) && u in TopK(ts, p, k) ==> t.weight <= u.weight
  {
    var b := Bucket(ts, p);
    var n := Min(k, |b|);
    StableSortSorted(Matching(ts, p));
    SplitMultiset(b, n);
    forall t, u | t in multiset(Matching(ts, p)) - multiset(b[..n]) && u in b[..n]
      ensures t.weight <= u.weight
    {
      SortedSplit(b, n, t, u);
    }
  }

  lemma {:induction false} SplitMultiset(b: seq<Term>, n: nat)
    requires n <= |b|
    ensures multiset(b) == multiset(b[..n]) + multiset(b[n..])
  {
    assert b == b[..n] + b[n..];
  }

  lemma {:induction false} SortedSplit(b: seq<Term>, n: nat, t: Term, u: Term)
    requires SortedByWeight(b) && n <= |b|
    requires t in multiset(b[n..]) && u in b[..n]
    ensures t.weight <= u.weight
  {
    var j :| 0 <= j < |b| - n && b[n..][j] == t;
    var i :| 0 <= i < n && b[..n][i] == u;
    assert b[i] == u && b[n + j] == t;
  }

  /**
   * A query for a prefix longer than `MAX_PREFIX`, or one that begins no
   * word, returns nothing, whatever `k` is.
   */
  lemma {:induction false} TopKOfUnknownPrefix(ts: seq<Term>, p: string, k: nat)
    requires |p| > MAX_PREFIX || forall i :: 0 <= i < |ts| ==> !(|p| <= |ts[i].word| && ts[i].word[..|p|] == p)
    ensures TopK(ts, p, k) == []
  {
    UnknownPrefix(ts, p);
  }

  // ---------------------------------------------------------------------
  // The byte estimate

  /** The bytes charged for one bucket entry. */
  function EntryCost(t: Term): int {
    BYTES_PER_DOUBLE + BYTES_PER_CHAR * |t.word|
  }

  /** The bytes charged for the entries of a bucket. */
  function EntriesCost(s: seq<Term>): (c: int)
    ensures c >= BYTES_PER_DOUBLE * |s|
  {
    if s == [] then 0 else EntriesCost(s[..|s| - 1]) + EntryCost(s[|s| - 1])
  }

  /** The bytes charged for key `p` and its bucket `s`. */
  function KeyCost(p: string, s: seq<Term>): int {
    BYTES_PER_CHAR * |p| + EntriesCost(s)
  }

  /** The byte estimate of a whole map: one `KeyCost` per key. */
  ghost function MapCost(m: map<string, seq<Term>>): (c: int)
    ensures c >= 0
    decreases |m|
  {
    if m == map[] then 0
    else
      var p :| p in m;
      assert |m - {p}| < |m| by {
        assert m.Keys == (m - {p}).Keys + {p};
      }
      KeyCost(p, m[p]) + MapCost(m - {p})
  }

  /** The estimate does not depend on the order the keys are visited in. */
  lemma {:induction false} MapCostRemove(m: map<string, seq<Term>>, q: string)
    requires q in m
    ensures MapCost(m) == KeyCost(q, m[q]) + MapCost(m - {q})
    decreases |m|
  {
    var p :| p in m && MapCost(m) == KeyCost(p, m[p]) + MapCost(m - {p});
    if p != q {
      assert |m - {p}| < |m| by {
        assert m.Keys == (m - {p}).Keys + {p};
      }
      assert |m - {q}| < |m| by {
        assert m.Keys == (m - {q}).Keys + {q};
      }
      MapCostRemove(m - {p}, q);
      MapCostRemove(m - {q}, p);
      assert m - {p} - {q} == m - {q} - {p};
    }
  }

  /** The estimate of the keys alone: every key with an empty bucket. */
  ghost function KeysCost(keys: set<string>): (c: int)
    ensures c >= 0
  {
    MapCost(map p | p in keys :: [])
  }

  /**
   * Each term charged once per key it is filed under: a word is filed under
   * its prefixes of lengths 0 to `min(MAX_PREFIX, |word|)`.
   */
  function TermsCost(ts: seq<Term>): (c: int)
    ensures c >= BYTES_PER_DOUBLE * |ts|
  {
    if ts == [] then 0
    else
      var t := ts[|ts| - 1];
      TermsCost(ts[..|ts| - 1]) + (Min(MAX_PREFIX, |t.word|) + 1) * EntryCost(t)
  }

  /** Replacing or adding the bucket of one key changes the estimate by that key's cost. */
  lemma {:induction false} MapCostUpdate(m: map<string, seq<Term>>, p: string, s: seq<Term>)
    ensures MapCost(m[p := s]) == MapCost(m) - (if p in m then KeyCost(p, m[p]) else 0) + KeyCost(p, s)
  {
    MapCostRemove(m[p := s], p);
    assert m[p := s] - {p} == m - {p};
    if p in m {
      MapCostRemove(m, p);
    } else {
      assert m - {p} == m;
    }
  }

  /** Adding one key to a key set adds that key's characters to the estimate. */
  lemma {:induction false} KeysCostAdd(keys: set<string>, p: string)
    requires p !in keys
    ensures KeysCost(keys + {p}) == KeysCost(keys) + BYTES_PER_CHAR * |p|
  {
    var e: map<string, seq<Term>> := map q | q in keys :: [];
    assert (map q | q in keys + {p} :: []) == e[p := []];
    MapCostUpdate(e, p, []);
  }

  lemma {:induction false} EntriesCostAppend(s: seq<Term>, t: Term)
    ensures EntriesCost(s + [t]) == EntriesCost(s) + EntryCost(t)
  {
    assert (s + [t])[..|s|] == s;
  }

  lemma {:induction false} EntriesCostInsert(s: seq<Term>, t: Term)
    ensures EntriesCost(Insert(s, t)) == EntriesCost(s) + EntryCost(t)
  {
    if s == [] || s[|s| - 1].weight >= t.weight {
      EntriesCostAppend(s, t);
    } else {
      var init, last := s[..|s| - 1], s[|s| - 1];
      assert s == init + [last];
      EntriesCostInsert(init, t);
      EntriesCostAppend(Insert(init, t), last);
      EntriesCostAppend(init, last);
    }
  }

  /** Sorting a bucket does not change what its entries cost. */
  lemma {:induction false} EntriesCostStableSort(s: seq<Term>)
    ensures EntriesCost(StableSort(s)) == EntriesCost(s)
  {
    if s != [] {
      var init, last := s[..|s| - 1], s[|s| - 1];
      assert s == init + [last];
      EntriesCostStableSort(init);
      EntriesCostInsert(StableSort(init), last);
      EntriesCostAppend(init, last);
    }
  }

  /** Two maps with the same keys and equally costly buckets have the same estimate. */
  lemma {:induction false} MapCostSameBucketCosts(m: map<string, seq<Term>>, m': map<string, seq<Term>>)
    requires m.Keys == m'.Keys
    requires forall p :: p in m ==> EntriesCost(m[p]) == EntriesCost(m'[p])
    ensures MapCost(m) == MapCost(m')
    decreases |m|
  {
    if m != map[] {
      var p :| p in m;
      var r, r' := m - {p}, m' - {p};
      MapCostRemove(m, p);
      MapCostRemove(m', p);
      assert KeyCost(p, m[p]) == KeyCost(p, m'[p]);
      assert |r| < |m| by {
        assert m.Keys == r.Keys + {p};
      }
      assert r.Keys == r'.Keys;
      MapCostSameBucketCosts(r, r');
    }
  }

  /** Sorting the buckets leaves the estimate of the index unchanged. */
  lemma {:induction false} IndexCostUnsorted(ts: seq<Term>)
    ensures MapCost(Index(ts)) == MapCost(UnsortedIndex(ts))
  {
    forall p | p in Index(ts)
      ensures EntriesCost(Index(ts)[p]) == EntriesCost(UnsortedIndex(ts)[p])
    {
      EntriesCostStableSort(Matching(ts, p));
    }
    MapCostSameBucketCosts(Index(ts), UnsortedIndex(ts));
  }

  /**
   * An index estimate is zero exactly when the vocabulary is empty, so a
   * cached zero means "not computed yet" or an empty index, never a stale value.
   */
  lemma {:induction false} IndexCostZeroIffEmpty(ts: seq<Term>)
    ensures MapCost(Index(ts)) == 0 <==> ts == []
  {
    if ts != [] {
      var m := Index(ts);
      PrefixClosure(ts, 0, 0);
      var e := ts[0].word[..0];
      IndexKeysMember(ts, e);
      assert e in m;
      MapCostRemove(m, e);
      IndexKeysAndBuckets(ts, e);
    }
  }
}
