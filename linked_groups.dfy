/** A `LinkedHashMap` from keys to lists, as `groupingBy(..., LinkedHashMap::new,
    mapping(..., toList()))` builds it and `computeIfAbsent` extends it: the
    keys in the order they were first inserted, and a list for each. */
module LinkedGroups {

  datatype Groups<K(==,!new), V> = Groups(keys: seq<K>, values: map<K, seq<V>>)
  {
    /** Every key is listed once, and exactly the listed keys have a list. */
    predicate Valid()
    {
      && Distinct(keys)
      && (forall k :: k in values ==> k in keys)
      && (forall k :: k in keys ==> k in values)
    }
  }

  predicate Distinct<T(==,!new)>(s: seq<T>)
  {
    forall i, j :: 0 <= i < j < |s| ==> s[i] != s[j]
  }

  /** The elements of `s` in the order they first occur. */
  function Dedup<T(==,!new)>(s: seq<T>): (r: seq<T>)
    ensures Distinct(r)
    ensures forall x :: x in r <==> x in s
  {
    if |s| == 0 then []
    else
      var d := Dedup(s[..|s| - 1]);
      var x := s[|s| - 1];
      assert forall y :: y in s <==> y in s[..|s| - 1] || y == x;
      if x in d then d else d + [x]
  }

  lemma DedupSnoc<T(!new)>(s: seq<T>, x: T)
    ensures Dedup(s + [x]) == if x in s then Dedup(s) else Dedup(s) + [x]
  {
    assert (s + [x])[..|s|] == s;
  }

  /** Deduplicating a distinct sequence changes nothing. */
  lemma {:induction false} DedupDistinct<T(!new)>(s: seq<T>)
    requires Distinct(s)
    ensures Dedup(s) == s
  {
    if |s| > 0 {
      var p := s[..|s| - 1];
      DedupDistinct(p);
      assert s == p + [s[|s| - 1]];
      DedupSnoc(p, s[|s| - 1]);
    }
  }

  /** Deduplicating `a + b` first deduplicates `a`: the first occurrences in
      `a` come first, in their order. */
  lemma {:induction false} DedupAppendPrefix<T(!new)>(a: seq<T>, b: seq<T>)
    ensures |Dedup(a)| <= |Dedup(a + b)|
    ensures Dedup(a + b)[..|Dedup(a)|] == Dedup(a)
  {
    if |b| == 0 {
      assert a + b == a;
    } else {
      var b' := b[..|b| - 1];
      DedupAppendPrefix(a, b');
      assert a + b == (a + b') + [b[|b| - 1]];
      DedupSnoc(a + b', b[|b| - 1]);
    }
  }

  /** Deduplicating twice is deduplicating once, also when more is appended. */
  lemma {:induction false} DedupDedupAppend<T(!new)>(a: seq<T>, b: seq<T>)
    ensures Dedup(Dedup(a) + b) == Dedup(a + b)
  {
    if |b| == 0 {
      assert Dedup(a) + b == Dedup(a);
      assert a + b == a;
      DedupDistinct(Dedup(a));
    } else {
      var b' := b[..|b| - 1];
      var x := b[|b| - 1];
      DedupDedupAppend(a, b');
      assert Dedup(a) + b == (Dedup(a) + b') + [x];
      assert a + b == (a + b') + [x];
      DedupSnoc(Dedup(a) + b', x);
      DedupSnoc(a + b', x);
    }
  }

  /** The values paired with key `k`, in order. */
  function Select<K(==,!new), V>(pairs: seq<(K, V)>, k: K): (r: seq<V>)
    ensures |r| <= |pairs|
  {
    if |pairs| == 0 then []
    else
      var rest := Select(pairs[..|pairs| - 1], k);
      if pairs[|pairs| - 1].0 == k then rest + [pairs[|pairs| - 1].1] else rest
  }

  /** The keys of the pairs, in order. */
  function Keys<K, V>(pairs: seq<(K, V)>): (r: seq<K>)
    ensures |r| == |pairs|
    ensures forall i :: 0 <= i < |pairs| ==> r[i] == pairs[i].0
  {
    if |pairs| == 0 then [] else Keys(pairs[..|pairs| - 1]) + [pairs[|pairs| - 1].0]
  }

  /** A key with no pair selects nothing. */
  lemma {:induction false} SelectAbsent<K(!new), V>(pairs: seq<(K, V)>, k: K)
    requires k !in Keys(pairs)
    ensures Select(pairs, k) == []
  {
    if |pairs| > 0 {
      var p := pairs[..|pairs| - 1];
      assert Keys(pairs) == Keys(p) + [pairs[|pairs| - 1].0];
      SelectAbsent(p, k);
    }
  }

  /** A key some pair carries selects at least that pair's value. */
  lemma {:induction false} SelectPresent<K(!new), V>(pairs: seq<(K, V)>, k: K)
    requires k in Keys(pairs)
    ensures |Select(pairs, k)| > 0
  {
    var p := pairs[..|pairs| - 1];
    assert Keys(pairs) == Keys(p) + [pairs[|pairs| - 1].0];
    if pairs[|pairs| - 1].0 != k {
      SelectPresent(p, k);
    }
  }

  function Empty<K(==,!new), V>(): Groups<K, V>
  {
    Groups([], map[])
  }

  /** The collector's accumulation step: `computeIfAbsent(k, new list).add(v)`. */
  function Add<K(==,!new), V>(g: Groups<K, V>, k: K, v: V): (r: Groups<K, V>)
  {
    if k in g.values then Groups(g.keys, g.values[k := g.values[k] + [v]])
    else Groups(g.keys + [k], g.values[k := [v]])
  }

  /** `computeIfAbsent(k, sd -> new ArrayList<>())`: an absent key gets an
      empty list at the end; a present key is left as it is. */
  function ComputeIfAbsent<K(==,!new), V>(g: Groups<K, V>, k: K): (r: Groups<K, V>)
    ensures k in g.values ==> r == g
    ensures k !in g.values ==> r.keys == g.keys + [k] && r.values == g.values[k := []]
  {
    if k in g.values then g else Groups(g.keys + [k], g.values[k := []])
  }

  /** `groupingBy` into a `LinkedHashMap`, with `toList` downstream. */
  function GroupBy<K(==,!new), V>(pairs: seq<(K, V)>): Groups<K, V>
  {
    if |pairs| == 0 then Empty()
    else Add(GroupBy(pairs[..|pairs| - 1]), pairs[|pairs| - 1].0, pairs[|pairs| - 1].1)
  }

  /** What `groupingBy` promises: keys in order of first occurrence, and for
      each key its values in input order. */
  ghost predicate GroupsOf<K(!new), V>(g: Groups<K, V>, keysSeen: seq<K>, pairs: seq<(K, V)>)
  {
    && g.Valid()
    && g.keys == Dedup(keysSeen)
    && (forall k :: k in g.values ==> g.values[k] == Select(pairs, k))
  }

  lemma {:induction false} GroupByGroups<K(!new), V>(pairs: seq<(K, V)>)
    ensures GroupsOf(GroupBy(pairs), Keys(pairs), pairs)
  {
    if |pairs| > 0 {
      var p := pairs[..|pairs| - 1];
      var (k, v) := pairs[|pairs| - 1];
      GroupByGroups(p);
      assert Keys(pairs) == Keys(p) + [k];
      DedupSnoc(Keys(p), k);
      var g := GroupBy(p);
      var r := GroupBy(pairs);
      assert r == Add(g, k, v);
      forall k' | k' in r.values
        ensures r.values[k'] == Select(pairs, k')
      {
        if k' == k && k !in g.values {
          SelectAbsent(p, k);
        }
      }
    }
  }

  /** `computeIfAbsent` keeps the grouping: the key joins the seen keys, and
      a key no pair carries gets the empty list it selects. */
  lemma ComputeIfAbsentGroups<K(!new), V>(g: Groups<K, V>, keysSeen: seq<K>, pairs: seq<(K, V)>, k: K)
    requires GroupsOf(g, keysSeen, pairs)
    requires k in keysSeen || k !in Keys(pairs)
    ensures GroupsOf(ComputeIfAbsent(g, k), keysSeen + [k], pairs)
  {
    DedupSnoc(keysSeen, k);
    if k !in keysSeen {
      SelectAbsent(pairs, k);
    }
  }
}
