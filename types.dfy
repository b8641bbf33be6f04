/** The generator's data model: closed intervals, per-variable sampling
    properties, immutable solutions with an order-independent hash, and the
    shared cancel flag of a generation run. */
module GeneratorTypes {
  import opened Numeric
  import opened Strings

  /** The closed range `[start, stop]` a variable is drawn from. */
  datatype Interval = Interval(start: real, stop: real)
  {
    /** The bounds as given, for `uniform`. */
    function FloatTuple(): (real, real) {
      (start, stop)
    }

    /** The bounds rounded up, for `randint`. */
    function IntTuple(): (int, int) {
      (Ceil(start), Ceil(stop))
    }

    /** Inclusive on both ends. */
    predicate Contains(v: real) {
      start <= v <= stop
    }
  }

  /** Each integer bound is the least integer not below the float bound;
      both ends of the interval are members of it. */
  lemma IntTupleIsCeiling(iv: Interval)
    ensures iv.FloatTuple().0 <= iv.IntTuple().0 as real < iv.FloatTuple().0 + 1.0
    ensures iv.FloatTuple().1 <= iv.IntTuple().1 as real < iv.FloatTuple().1 + 1.0
    ensures iv.start <= iv.stop ==> iv.Contains(iv.start) && iv.Contains(iv.stop)
    ensures iv.start <= iv.stop ==> iv.IntTuple().0 <= iv.IntTuple().1
  {
    if iv.start <= iv.stop {
      CeilMonotone(iv.start, iv.stop);
    }
  }

  /** How one variable is sampled; the two flags select the mode. */
  datatype VariableProperties = VariableProperties(
    interval: Interval,
    isProperFraction: bool,
    isDecimalFraction: bool)

  /** An immutable mapping from variable names to values. */
  datatype Solution = Solution(values: map<string, real>)
  {
    function Len(): nat {
      |values|
    }

    function Get(key: string): real
      requires key in values
    {
      values[key]
    }
  }

  /** The keys of all mappings in `ds`. */
  function AllKeys(ds: seq<map<string, real>>): set<string> {
    set i, k | 0 <= i < |ds| && k in ds[i] :: k
  }

  /** `k` occurs in `ds[i]` and in no later mapping. */
  predicate LastWith(ds: seq<map<string, real>>, k: string, i: int) {
    0 <= i < |ds| && k in ds[i] && forall j :: i < j < |ds| ==> k !in ds[j]
  }

  /** `Solution(*ds)`: the mappings merged left to right, so that a later
      mapping's value wins on a shared key. */
  function Merge(ds: seq<map<string, real>>): (s: Solution)
    ensures s.values.Keys == AllKeys(ds)
    ensures forall k, i :: LastWith(ds, k, i) ==> s.values[k] == ds[i][k]
  {
    if |ds| == 0 then Solution(map[])
    else
      var front := Merge(ds[..|ds| - 1]);
      AllKeysSnoc(ds);
      LastWithSnoc(ds);
      Solution(front.values + ds[|ds| - 1])
  }

  /** A key whose last mapping is not the final one has the same last
      mapping among all but the final one. */
  lemma LastWithSnoc(ds: seq<map<string, real>>)
    requires |ds| > 0
    ensures forall k, i :: LastWith(ds, k, i) && i < |ds| - 1 ==>
      LastWith(ds[..|ds| - 1], k, i) && ds[..|ds| - 1][i] == ds[i] && k !in ds[|ds| - 1]
  {
  }

  /** The keys of a sequence of mappings are those of all but the last
      one together with the last one's. */
  lemma AllKeysSnoc(ds: seq<map<string, real>>)
    requires |ds| > 0
    ensures AllKeys(ds) == AllKeys(ds[..|ds| - 1]) + ds[|ds| - 1].Keys
  {
    forall k | k in AllKeys(ds)
      ensures k in AllKeys(ds[..|ds| - 1]) + ds[|ds| - 1].Keys
    {
      var i :| 0 <= i < |ds| && k in ds[i];
      if i < |ds| - 1 {
        assert k in ds[..|ds| - 1][i];
      }
    }
    forall k | k in AllKeys(ds[..|ds| - 1])
      ensures k in AllKeys(ds)
    {
      var i :| 0 <= i < |ds| - 1 && k in ds[..|ds| - 1][i];
      assert k in ds[i];
    }
  }

  /** Merging two mappings that agree on their shared keys does not depend
      on their order. */
  lemma MergeOrderIndependent(d1: map<string, real>, d2: map<string, real>)
    requires forall k :: k in d1 && k in d2 ==> d1[k] == d2[k]
    ensures Merge([d1, d2]) == Merge([d2, d1])
  {
    var a, b := Merge([d1, d2]), Merge([d2, d1]);
    AllKeysOfPair(d1, d2);
    AllKeysOfPair(d2, d1);
    forall k | k in a.values
      ensures b.values[k] == a.values[k]
    {
      MergedPairValue(d1, d2, k);
      MergedPairValue(d2, d1, k);
    }
    assert a.values == b.values;
  }

  lemma AllKeysOfPair(d1: map<string, real>, d2: map<string, real>)
    ensures AllKeys([d1, d2]) == d1.Keys + d2.Keys
  {
    forall k | k in d1.Keys + d2.Keys
      ensures k in AllKeys([d1, d2])
    {
      if k in d1 {
        assert [d1, d2][0] == d1;
      } else {
        assert [d1, d2][1] == d2;
      }
    }
  }

  /** In a merge of two mappings, the second one's value wins. */
  lemma MergedPairValue(d1: map<string, real>, d2: map<string, real>, k: string)
    requires k in d1 || k in d2
    ensures k in Merge([d1, d2]).values
    ensures Merge([d1, d2]).values[k] == if k in d2 then d2[k] else d1[k]
  {
    AllKeysOfPair(d1, d2);
    if k in d2 {
      assert LastWith([d1, d2], k, 1);
    } else {
      assert LastWith([d1, d2], k, 0);
    }
  }

  /** `round(v, 10)`. */
  function Round10(v: real): real {
    RoundTo(v, 10)
  }

  /** The value `__hash__` is computed from: the `(key, round(value, 10))`
      pairs sorted by key. */
  function HashKey(s: Solution): seq<(string, real)> {
    RoundedPairs(SortedStrings(s.values.Keys), s.values)
  }

  /** The hashed pairs are ordered by strictly increasing key, so no key
      is listed twice. */
  lemma HashKeySorted(s: Solution)
    ensures var pairs := HashKey(s);
      forall i, j :: 0 <= i < j < |pairs| ==> StrLess(pairs[i].0, pairs[j].0)
  {
    var keys := SortedStrings(s.values.Keys);
    var pairs := HashKey(s);
    forall i, j | 0 <= i < j < |pairs|
      ensures StrLess(pairs[i].0, pairs[j].0)
    {
      assert pairs[i].0 == keys[i] && pairs[j].0 == keys[j];
    }
  }

  /** The hashed pairs name exactly the solution's keys, each with its
      value rounded to ten places. */
  lemma HashKeyContents(s: Solution)
    ensures var pairs := HashKey(s);
      && |pairs| == |s.values|
      && (forall k :: k in s.values <==> exists i :: 0 <= i < |pairs| && pairs[i].0 == k)
      && (forall i :: 0 <= i < |pairs| ==> pairs[i].0 in s.values && pairs[i].1 == Round10(s.values[pairs[i].0]))
  {
    var keys := SortedStrings(s.values.Keys);
    var pairs := HashKey(s);
    forall i | 0 <= i < |pairs|
      ensures pairs[i].0 in s.values
    {
      assert keys[i] in keys;
    }
    forall k | k in s.values
      ensures exists i :: 0 <= i < |pairs| && pairs[i].0 == k
    {
      assert k in keys;
      var i :| 0 <= i < |keys| && keys[i] == k;
      assert pairs[i].0 == k;
    }
  }

  /** Each key paired with its value rounded to ten places, in the order
      of `keys`. */
  function RoundedPairs(keys: seq<string>, values: map<string, real>): (pairs: seq<(string, real)>)
    requires forall k :: k in keys ==> k in values
    ensures |pairs| == |keys|
    ensures forall i :: 0 <= i < |pairs| ==> pairs[i] == (keys[i], Round10(values[keys[i]]))
  {
    if |keys| == 0 then []
    else [(keys[0], Round10(values[keys[0]]))] + RoundedPairs(keys[1..], values)
  }

  /** Solutions with the same keys and the same values rounded to ten
      places hash alike, whatever their values' exact digits. */
  lemma HashKeyOnlySeesRoundedValues(s: Solution, t: Solution)
    requires s.values.Keys == t.values.Keys
    requires forall k :: k in s.values ==> Round10(s.values[k]) == Round10(t.values[k])
    ensures HashKey(s) == HashKey(t)
  {
  }

  /** The merge order of key-disjoint inputs does not change the hash. A
      solution here is a map, which has no insertion order, so this follows
      from `MergeOrderIndependent` alone; the sort in `__hash__` is what
      erases the dictionary order in the source. */
  lemma HashIndependentOfInsertionOrder(d1: map<string, real>, d2: map<string, real>)
    requires d1.Keys !! d2.Keys
    ensures HashKey(Merge([d1, d2])) == HashKey(Merge([d2, d1]))
  {
    MergeOrderIndependent(d1, d2);
  }

  /** Solutions are compared exactly, so two of them can differ while their
      hashes agree: set membership is decided by exact values. */
  lemma EqualityFinerThanHash()
    ensures var s, t := Solution(map["a" := 0.0]), Solution(map["a" := 1.0 / 1000000000000.0]);
      s != t && HashKey(s) == HashKey(t)
  {
    var s, t := Solution(map["a" := 0.0]), Solution(map["a" := 1.0 / 1000000000000.0]);
    assert s.values["a"] != t.values["a"];
    assert Pow10(10) == 10000000000;
    assert Round10(1.0 / 1000000000000.0) == 0.0;
    assert Round10(0.0) == 0.0;
    HashKeyOnlySeesRoundedValues(s, t);
  }

  /** The process-wide flag a generation run polls to learn that it was
      abandoned. */
  class GenerationTask {
    var canceled: bool

    constructor()
      ensures !canceled
    {
      canceled := false;
    }

    /** Starting a run clears the flag. */
    method Run()
      modifies this
      ensures !canceled
    {
      canceled := false;
    }

    method Cancel()
      modifies this
      ensures canceled
    {
      canceled := true;
    }

    /** Clearing a task also cancels it. */
    method Clear()
      modifies this
      ensures canceled
    {
      Cancel();
    }
  }
}
