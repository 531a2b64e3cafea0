/**
 * The hash-bucket autocompletor: a map from every short prefix of the
 * vocabulary's words to its bucket, built once and then queried.
 *
 * `myMap` and `mySize` are the object's two fields. Each method is proved
 * against the value-level description in module PrefixIndex: `Initialize`
 * builds the map `Index` describes, `TopMatches` answers `TopK`, and
 * `SizeInBytes` returns `MapCost` or the value it cached before.
 */
module Autocomplete {
  import opened Terms
  import opened PrefixIndex

  datatype Result<T> = Success(value: T) | Failure(error: string)

  /** The message of the exception raised when an argument is missing. */
  const NULL_ARGUMENTS := "One or more arguments null"

  /** The vocabulary as terms: `words[i]` with weight `weights[i]`, for each word. */
  function Vocabulary(words: seq<string>, weights: seq<int>): (ts: seq<Term>)
    requires |words| <= |weights|
    ensures |ts| == |words|
    ensures forall i :: 0 <= i < |ts| ==> ts[i].word == words[i] && ts[i].weight == weights[i]
  {
    seq(|words|, i requires 0 <= i < |words| => Term(words[i], weights[i]))
  }

  class HashListAutocomplete {
    var myMap: map<string, seq<Term>>
    /** The cached byte estimate; zero means "not computed yet". */
    var mySize: int
    /** The terms the index was last built from, in input order. */
    ghost var vocabulary: seq<Term>

    ghost predicate Valid()
      reads this
    {
      myMap == Index(vocabulary)
    }

    /** The cache holds either nothing yet or the estimate of the current map. */
    ghost predicate SizeCacheSound()
      reads this
    {
      mySize == 0 || mySize == MapCost(myMap)
    }

    /** Builds the index of `terms` weighted by `weights`. */
    constructor (terms: array<string>, weights: array<int>)
      requires terms.Length <= weights.Length
      ensures Valid()
      ensures vocabulary == Vocabulary(terms[..], weights[..])
      ensures mySize == 0
    {
      myMap := map[];
      mySize := 0;
      vocabulary := [];
      new;
      Initialize(terms, weights);
    }

    /**
     * Rebuilds the map: files every term under each prefix of its word of up
     * to `MAX_PREFIX` characters, then sorts every bucket heaviest first,
     * stably. The cached size is left as it was.
     */
    method Initialize(terms: array<string>, weights: array<int>)
      requires terms.Length <= weights.Length
      modifies this`myMap, this`vocabulary
      ensures Valid()
      ensures vocabulary == Vocabulary(terms[..], weights[..])
      ensures mySize == old(mySize)
    {
      ghost var ts := Vocabulary(terms[..], weights[..]);
      myMap := map[];
      for i := 0 to terms.Length
        invariant myMap == UnsortedIndex(ts[..i])
      {
        var size := Min(MAX_PREFIX, |terms[i]|);
        ghost var before := myMap;
        assert ts[i] == Term(terms[i], weights[i]);
        for k := 0 to size + 1
          invariant myMap == FileUnder(before, ts[i], k)
        {
          var prefix := terms[i][..k];
          var t := Term(terms[i], weights[i]);
          ghost var filed := myMap;
          if prefix !in myMap {
            myMap := myMap[prefix := []];
          }
          myMap := myMap[prefix := myMap[prefix] + [t]];
          assert myMap == File(filed, prefix, t);
        }
        FileUnderShortPrefixes(ts, i);
      }
      assert ts[..terms.Length] == ts;
      ghost var filed := myMap;
      SortBuckets();
      SortedBucketsAreIndex(filed, myMap, ts);
      vocabulary := ts;
    }

    /**
     * Rebuilds the map as `Initialize` does and also clears the cached size,
     * so that the next `SizeInBytes` measures the new map.
     */
    method Rebuild(terms: array<string>, weights: array<int>)
      requires terms.Length <= weights.Length
      modifies this`myMap, this`vocabulary, this`mySize
      ensures Valid() && SizeCacheSound()
      ensures vocabulary == Vocabulary(terms[..], weights[..])
      ensures mySize == 0
    {
      Initialize(terms, weights);
      mySize := 0;
    }

    /**
     * The second phase of `Initialize`: sorts every bucket in place,
     * heaviest first, stably, visiting the keys in any order.
     */
    method SortBuckets()
      modifies this`myMap
      ensures myMap.Keys == old(myMap).Keys
      ensures forall p :: p in myMap ==> myMap[p] == StableSort(old(myMap)[p])
    {
      var unsorted := myMap.Keys;
      while unsorted != {}
        invariant unsorted <= myMap.Keys == old(myMap).Keys
        invariant forall p :: p in myMap ==> myMap[p] == if p in unsorted then old(myMap)[p] else StableSort(old(myMap)[p])
        decreases unsorted
      {
        var p :| p in unsorted;
        myMap := myMap[p := StableSort(myMap[p])];
        unsorted := unsorted - {p};
      }
    }

    /**
     * The `k` heaviest terms whose word starts with `prefix`, heaviest first;
     * none when `prefix` is not a key, whatever `k` is. A negative `k` for a
     * key makes the slice fail, so callers must not pass one.
     */
    method TopMatches(prefix: string, k: int) returns (r: seq<Term>)
      requires Valid()
      requires k >= 0 || prefix !in myMap
      ensures r == TopK(vocabulary, prefix, if k < 0 then 0 else k)
    {
      if prefix !in myMap {
        IndexKeysMember(vocabulary, prefix);
        return [];
      }
      var all := myMap[prefix];
      r := all[..Min(k, |all|)];
    }

    /**
     * The byte estimate of the map, computed on the first call that finds
     * the cache at zero and returned from the cache afterwards.
     */
    method SizeInBytes() returns (n: int)
      modifies this`mySize
      ensures old(mySize) != 0 ==> n == old(mySize)
      ensures old(mySize) == 0 ==> n == MapCost(myMap)
      ensures mySize == n
      ensures old(SizeCacheSound()) ==> n == MapCost(myMap) && SizeCacheSound()
    {
      if mySize == 0 {
        var rest := myMap;
        while rest != map[]
          invariant rest.Keys <= myMap.Keys
          invariant forall p :: p in rest ==> rest[p] == myMap[p]
          invariant mySize + MapCost(rest) == MapCost(myMap)
          decreases |rest|
        {
          var p :| p in rest;
          MapCostRemove(rest, p);
          mySize := mySize + BYTES_PER_CHAR * |p|;
          ghost var keyed := mySize;
          var bucket := myMap[p];
          for i := 0 to |bucket|
            invariant mySize == keyed + EntriesCost(bucket[..i])
          {
            assert bucket[..i + 1] == bucket[..i] + [bucket[i]];
            EntriesCostAppend(bucket[..i], bucket[i]);
            mySize := mySize + BYTES_PER_DOUBLE + BYTES_PER_CHAR * |bucket[i].word|;
          }
          assert bucket[..|bucket|] == bucket;
          assert |rest - {p}| < |rest| by {
            assert rest.Keys == (rest - {p}).Keys + {p};
          }
          rest := rest - {p};
        }
      }
      n := mySize;
    }
  }

  /** `p` is one of the first `k` prefixes of `w`. */
  predicate ShortPrefix(p: string, w: string, k: nat) {
    |p| < k && |p| <= |w| && w[..|p|] == p
  }

  /**
   * `m` after the inner loop of `Initialize` has run `k` times for term `t`:
   * `t` appended to the buckets of the prefixes of `t.word` of lengths 0 to
   * `k - 1`, each bucket created empty first if it is missing.
   */
  function FileUnder(m: map<string, seq<Term>>, t: Term, k: nat): map<string, seq<Term>>
    requires k <= |t.word| + 1
  {
    if k == 0 then m else File(FileUnder(m, t, k - 1), t.word[..k - 1], t)
  }

  /** `m` after one step of that loop: `t` appended to the bucket of `q`, created if missing. */
  function File(m: map<string, seq<Term>>, q: string, t: Term): map<string, seq<Term>> {
    var filled := if q in m then m else m[q := []];
    filled[q := filled[q] + [t]]
  }

  lemma {:induction false} FileUnderAt(m: map<string, seq<Term>>, t: Term, k: nat, p: string)
    requires k <= |t.word| + 1
    ensures p in FileUnder(m, t, k) <==> p in m || ShortPrefix(p, t.word, k)
    ensures p in FileUnder(m, t, k) ==>
      FileUnder(m, t, k)[p] == (if p in m then m[p] else []) + (if ShortPrefix(p, t.word, k) then [t] else [])
  {
    if k > 0 {
      FileUnderAt(m, t, k - 1, p);
      var q := t.word[..k - 1];
      if p != q {
        assert ShortPrefix(p, t.word, k) == ShortPrefix(p, t.word, k - 1);
      } else {
        assert !ShortPrefix(p, t.word, k - 1);
      }
    }
  }

  /**
   * Filing input `i` under all its prefixes of up to `MAX_PREFIX` characters
   * turns the unsorted index of the inputs before it into that of the inputs
   * up to it.
   */
  lemma {:induction false} FileUnderShortPrefixes(ts: seq<Term>, i: nat)
    requires i < |ts|
    ensures FileUnder(UnsortedIndex(ts[..i]), ts[i], Min(MAX_PREFIX, |ts[i].word|) + 1) == UnsortedIndex(ts[..i + 1])
  {
    var before, t := ts[..i], ts[i];
    var k := Min(MAX_PREFIX, |t.word|) + 1;
    var m, m' := UnsortedIndex(before), FileUnder(UnsortedIndex(before), t, k);
    assert ts[..i + 1] == before + [t];
    forall p
      ensures p in m' <==> p in UnsortedIndex(ts[..i + 1])
      ensures p in m' ==> m'[p] == UnsortedIndex(ts[..i + 1])[p]
    {
      MatchingAppend(before, t, p);
      FileUnderAt(m, t, k, p);
      IndexKeysMember(before, p);
      IndexKeysMember(before + [t], p);
      assert ShortPrefix(p, t.word, k) <==> Indexed(p, t.word);
    }
  }

  /**
   * Each step of the inner loop of `Initialize` adds one entry for `t`, and
   * the characters of the key when it creates that key.
   */
  lemma {:induction false} FileUnderCost(m: map<string, seq<Term>>, t: Term, k: nat)
    requires k <= |t.word| + 1
    ensures MapCost(FileUnder(m, t, k)) - KeysCost(FileUnder(m, t, k).Keys) == MapCost(m) - KeysCost(m.Keys) + k * EntryCost(t)
  {
    if k > 0 {
      var before := FileUnder(m, t, k - 1);
      FileUnderCost(m, t, k - 1);
      FileCost(before, t.word[..k - 1], t);
      assert FileUnder(m, t, k) == File(before, t.word[..k - 1], t);
      var e := EntryCost(t);
      assert k * e == (k - 1) * e + e;
    }
  }

  lemma {:induction false} FileCost(m: map<string, seq<Term>>, q: string, t: Term)
    ensures MapCost(File(m, q, t)) - KeysCost(File(m, q, t).Keys) == MapCost(m) - KeysCost(m.Keys) + EntryCost(t)
  {
    if q in m {
      var r := m[q := m[q] + [t]];
      assert File(m, q, t) == r;
      MapCostUpdate(m, q, m[q] + [t]);
      EntriesCostAppend(m[q], t);
      assert r.Keys == m.Keys;
    } else {
      var r := m[q := [t]];
      var filled := m[q := []];
      assert filled[q] + [t] == [t];
      assert filled[q := [t]] == r;
      MapCostUpdate(m, q, [t]);
      EntriesCostAppend([], t);
      KeysCostAdd(m.Keys, q);
      assert r.Keys == m.Keys + {q};
    }
  }

  /**
   * The double-counting policy of the byte estimate: the index of `ts` costs
   * the characters of its keys plus, for every input term, one entry per key
   * the term is filed under.
   */
  lemma {:induction false} IndexCostPerTerm(ts: seq<Term>)
    ensures MapCost(Index(ts)) == KeysCost(IndexKeys(ts)) + TermsCost(ts)
  {
    IndexCostUnsorted(ts);
    UnsortedIndexCost(ts);
  }

  lemma {:induction false} UnsortedIndexCost(ts: seq<Term>)
    ensures MapCost(UnsortedIndex(ts)) == KeysCost(IndexKeys(ts)) + TermsCost(ts)
  {
    if ts == [] {
      assert UnsortedIndex(ts) == map[];
      var none: map<string, seq<Term>> := map p | p in IndexKeys(ts) :: [];
      assert none == map[];
    } else {
      var i := |ts| - 1;
      var init, t := ts[..i], ts[i];
      UnsortedIndexCost(init);
      FileUnderShortPrefixes(ts, i);
      assert ts[..i + 1] == ts;
      FileUnderCost(UnsortedIndex(init), t, Min(MAX_PREFIX, |t.word|) + 1);
      assert UnsortedIndex(init).Keys == IndexKeys(init);
      assert UnsortedIndex(ts).Keys == IndexKeys(ts);
    }
  }

  /** Sorting every bucket of the unsorted index gives the index. */
  lemma {:induction false} SortedBucketsAreIndex(filed: map<string, seq<Term>>, m: map<string, seq<Term>>, ts: seq<Term>)
    requires filed == UnsortedIndex(ts) && m.Keys == filed.Keys
    requires forall p :: p in m ==> m[p] == StableSort(filed[p])
    ensures m == Index(ts)
  {
  }

  /**
   * Builds the autocompletor; fails, building nothing, when either array is
   * missing.
   */
  method New(terms: array?<string>, weights: array?<int>) returns (r: Result<HashListAutocomplete>)
    requires terms != null && weights != null ==> terms.Length <= weights.Length
    ensures r.Failure? <==> terms == null || weights == null
    ensures r.Failure? ==> r.error == NULL_ARGUMENTS
    ensures r.Success? ==> fresh(r.value) && r.value.Valid() && r.value.mySize == 0
    ensures r.Success? ==> r.value.vocabulary == Vocabulary(terms[..], weights[..])
  {
    if terms == null || weights == null {
      return Failure(NULL_ARGUMENTS);
    }
    var index := new HashListAutocomplete(terms, weights);
    return Success(index);
  }

  /**
   * Two identical queries give identical answers: a query changes nothing.
   */
  method RepeatedQueriesAgree(index: HashListAutocomplete, prefix: string, k: nat) returns (first: seq<Term>, second: seq<Term>)
    requires index.Valid()
    ensures first == second == TopK(index.vocabulary, prefix, k)
  {
    first := index.TopMatches(prefix, k);
    second := index.TopMatches(prefix, k);
  }

  /**
   * Two calls of `SizeInBytes` return the same value; on a fresh or rebuilt
   * index it is the estimate of the map.
   */
  method RepeatedSizesAgree(index: HashListAutocomplete) returns (first: int, second: int)
    modifies index`mySize
    ensures first == second
    ensures old(index.SizeCacheSound()) ==> first == MapCost(index.myMap)
  {
    first := index.SizeInBytes();
    second := index.SizeInBytes();
  }

  /**
   * `Initialize` keeps the cached size, so after re-initializing an index
   * whose size was already asked for, `SizeInBytes` reports the old map's
   * estimate: here a positive size for an index with no keys.
   */
  method StaleSizeAfterReinitialize() returns (reported: int, keys: nat)
    ensures keys == 0 && reported > 0
    ensures reported != MapCost(map[])
  {
    var terms := new string[1];
    terms[0] := "a";
    var weights := new int[1];
    weights[0] := 1;
    var index := new HashListAutocomplete(terms, weights);
    IndexCostZeroIffEmpty(index.vocabulary);
    var first := index.SizeInBytes();
    var noTerms := new string[0];
    var noWeights := new int[0];
    index.Initialize(noTerms, noWeights);
    assert index.vocabulary == [];
    assert index.myMap == map[];
    reported := index.SizeInBytes();
    keys := |index.myMap|;
  }

  /** With `Rebuild`, the same sequence of calls reports the empty map's size, zero. */
  method FreshSizeAfterRebuild() returns (reported: int, keys: nat)
    ensures keys == 0 && reported == 0
  {
    var terms := new string[1];
    terms[0] := "a";
    var weights := new int[1];
    weights[0] := 1;
    var index := new HashListAutocomplete(terms, weights);
    var first := index.SizeInBytes();
    var noTerms := new string[0];
    var noWeights := new int[0];
    index.Rebuild(noTerms, noWeights);
    assert index.vocabulary == [];
    assert index.myMap == map[];
    reported := index.SizeInBytes();
    keys := |index.myMap|;
  }
}
