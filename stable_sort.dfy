/** `Stream.sorted(comparator.reversed())` over a key: a stable sort into
    descending key order. Java's sort is stable, so elements with equal keys
    keep their input order. */
module StableSort {
  import opened Strings

  /** A sort key: a whole number, or `Lowest`, which ranks below every number
      (a `null` under `nullsFirst`, which the reversed order puts last). */
  datatype Rank = Lowest | Rank(n: int)

  /** `a` ranks at most `b`. */
  predicate AtMost(a: Rank, b: Rank)
  {
    a.Lowest? || (b.Rank? && a.n <= b.n)
  }

  predicate Descending<T>(s: seq<T>, key: T -> Rank)
  {
    forall i, j :: 0 <= i < j < |s| ==> AtMost(key(s[j]), key(s[i]))
  }

  /** The elements whose key is `k`, in order. */
  function Filter<T>(s: seq<T>, key: T -> Rank, k: Rank): (r: seq<T>)
    ensures |r| <= |s|
  {
    if |s| == 0 then []
    else (if key(s[0]) == k then [s[0]] else []) + Filter(s[1..], key, k)
  }

  /** Places `x` in a descending sequence after every element that ranks at
      least as high. */
  function Insert<T>(s: seq<T>, x: T, key: T -> Rank): (r: seq<T>)
    ensures |r| == |s| + 1
  {
    if |s| == 0 then [x]
    else if !AtMost(key(x), key(s[0])) then [x] + s
    else [s[0]] + Insert(s[1..], x, key)
  }

  /** Insertion sort, adding the elements in input order. */
  function Sort<T>(s: seq<T>, key: T -> Rank): (r: seq<T>)
    ensures |r| == |s|
  {
    if |s| == 0 then [] else Insert(Sort(s[..|s| - 1], key), s[|s| - 1], key)
  }

  /** Inserting adds exactly `x`. */
  lemma {:induction false} InsertPermutes<T>(s: seq<T>, x: T, key: T -> Rank)
    ensures multiset(Insert(s, x, key)) == multiset(s) + multiset{x}
  {
    if |s| > 0 && AtMost(key(x), key(s[0])) {
      assert s == [s[0]] + s[1..];
      InsertPermutes(s[1..], x, key);
    }
  }

  /** Inserting into a descending sequence keeps it descending. */
  lemma {:induction false} InsertFacts<T>(s: seq<T>, x: T, key: T -> Rank)
    requires Descending(s, key)
    ensures multiset(Insert(s, x, key)) == multiset(s) + multiset{x}
    ensures Descending(Insert(s, x, key), key)
  {
    InsertPermutes(s, x, key);
    if |s| > 0 && AtMost(key(x), key(s[0])) {
      var t := s[1..];
      InsertFacts(t, x, key);
      InsertPermutes(t, x, key);
      var rt := Insert(t, x, key);
      assert Insert(s, x, key) == [s[0]] + rt;
      forall j | 0 <= j < |rt|
        ensures AtMost(key(rt[j]), key(s[0]))
      {
        assert rt[j] in multiset(rt);
        if rt[j] != x {
          assert rt[j] in multiset(t);
          var m :| 0 <= m < |t| && t[m] == rt[j];
          assert t[m] == s[m + 1];
        }
      }
      DescendingCons(s[0], rt, key);
    } else if |s| > 0 {
      forall j | 0 <= j < |s|
        ensures AtMost(key(s[j]), key(x))
      {
        if j > 0 {
          assert AtMost(key(s[j]), key(s[0]));
        }
      }
      DescendingCons(x, s, key);
    }
  }

  /** A descending sequence stays descending behind a head that ranks at
      least as high as all of it. */
  lemma DescendingCons<T>(h: T, s: seq<T>, key: T -> Rank)
    requires Descending(s, key)
    requires forall j :: 0 <= j < |s| ==> AtMost(key(s[j]), key(h))
    ensures Descending([h] + s, key)
  {
    var r := [h] + s;
    forall i, j | 0 <= i < j < |r|
      ensures AtMost(key(r[j]), key(r[i]))
    {
      assert r[j] == s[j - 1];
      if i > 0 {
        assert r[i] == s[i - 1];
      }
    }
  }

  lemma {:induction false} FilterAppend<T>(a: seq<T>, b: seq<T>, key: T -> Rank, k: Rank)
    ensures Filter(a + b, key, k) == Filter(a, key, k) + Filter(b, key, k)
  {
    if |a| > 0 {
      assert (a + b)[1..] == a[1..] + b;
      FilterAppend(a[1..], b, key, k);
    } else {
      assert a + b == b;
    }
  }

  /** Nothing in a descending sequence headed below `k` has key `k`. */
  lemma {:induction false} FilterBelow<T>(s: seq<T>, key: T -> Rank, k: Rank)
    requires Descending(s, key)
    requires |s| > 0 && AtMost(key(s[0]), k) && key(s[0]) != k
    ensures Filter(s, key, k) == []
  {
    if |s| > 1 {
      assert AtMost(key(s[1]), key(s[0]));
      FilterBelow(s[1..], key, k);
    }
  }

  lemma {:induction false} InsertFilter<T>(s: seq<T>, x: T, key: T -> Rank, k: Rank)
    requires Descending(s, key)
    ensures Filter(Insert(s, x, key), key, k) == Filter(s, key, k) + Filter([x], key, k)
  {
    var fx := Filter([x], key, k);
    assert [x][1..] == [];
    assert fx == if key(x) == k then [x] else [];
    if |s| == 0 {
      assert Insert(s, x, key) == [x];
      assert Filter(s, key, k) + fx == fx;
    } else if !AtMost(key(x), key(s[0])) {
      InsertFilterFront(s, x, key, k);
    } else {
      var r := Insert(s, x, key);
      var head := if key(s[0]) == k then [s[0]] else [];
      assert r == [s[0]] + Insert(s[1..], x, key);
      assert r[0] == s[0] && r[1..] == Insert(s[1..], x, key);
      InsertFilter(s[1..], x, key, k);
      AppendAssoc(head, Filter(s[1..], key, k), fx);
    }
  }

  /** `x` goes in front of a sequence it outranks; nothing behind it has its
      key. */
  lemma InsertFilterFront<T>(s: seq<T>, x: T, key: T -> Rank, k: Rank)
    requires Descending(s, key) && |s| > 0 && !AtMost(key(x), key(s[0]))
    ensures Filter(Insert(s, x, key), key, k) == Filter(s, key, k) + Filter([x], key, k)
  {
    var fx := Filter([x], key, k);
    assert [x][1..] == [];
    assert Insert(s, x, key) == [x] + s;
    FilterAppend([x], s, key, k);
    if key(x) == k {
      FilterBelow(s, key, k);
      assert fx == [x];
      assert Filter(s, key, k) + fx == fx + [];
    } else {
      assert fx == [];
      assert Filter(s, key, k) + fx == fx + Filter(s, key, k);
    }
  }

  /** The sort is a permutation into descending key order that keeps the
      input order among elements with the same key. */
  lemma {:induction false} SortCorrect<T>(s: seq<T>, key: T -> Rank)
    ensures multiset(Sort(s, key)) == multiset(s)
    ensures Descending(Sort(s, key), key)
    ensures forall k :: Filter(Sort(s, key), key, k) == Filter(s, key, k)
  {
    if |s| > 0 {
      var p, x := s[..|s| - 1], s[|s| - 1];
      assert s == p + [x];
      SortCorrect(p, key);
      InsertFacts(Sort(p, key), x, key);
      forall k
        ensures Filter(Sort(s, key), key, k) == Filter(s, key, k)
      {
        InsertFilter(Sort(p, key), x, key, k);
        FilterAppend(p, [x], key, k);
      }
    }
  }

  /** A stable descending order is unique: any permutation into descending
      order that keeps the order within each key is the sort. */
  lemma {:induction false} SortUnique<T>(s: seq<T>, t: seq<T>, key: T -> Rank)
    requires Descending(t, key)
    requires forall k :: Filter(t, key, k) == Filter(s, key, k)
    ensures t == Sort(s, key)
  {
    SortCorrect(s, key);
    DescendingDeterminedByFilters(t, Sort(s, key), key);
  }

  lemma FilterHead<T>(s: seq<T>, key: T -> Rank)
    requires |s| > 0
    ensures Filter(s, key, key(s[0])) != []
  {
  }

  /** Two descending sequences with the same elements per key are equal. */
  lemma {:induction false} DescendingDeterminedByFilters<T>(a: seq<T>, b: seq<T>, key: T -> Rank)
    requires Descending(a, key) && Descending(b, key)
    requires forall k :: Filter(a, key, k) == Filter(b, key, k)
    ensures a == b
    decreases |a| + |b|
  {
    if |a| == 0 && |b| > 0 {
      FilterHead(b, key);
      assert false;
    } else if |a| > 0 && |b| == 0 {
      FilterHead(a, key);
      assert false;
    } else if |a| > 0 {
      var ka, kb := key(a[0]), key(b[0]);
      if ka != kb {
        FilterHead(a, key);
        FilterHead(b, key);
        if AtMost(ka, kb) {
          FilterBelow(a, key, kb);
        } else {
          FilterBelow(b, key, ka);
        }
        assert false;
      } else {
        assert a[0] == Filter(a, key, ka)[0] == Filter(b, key, ka)[0] == b[0];
        forall k
          ensures Filter(a[1..], key, k) == Filter(b[1..], key, k)
        {
          var head := if ka == k then [a[0]] else [];
          assert Filter(a, key, k) == head + Filter(a[1..], key, k);
          assert Filter(b, key, k) == head + Filter(b[1..], key, k);
          assert (head + Filter(a[1..], key, k))[|head|..] == Filter(a[1..], key, k);
          assert (head + Filter(b[1..], key, k))[|head|..] == Filter(b[1..], key, k);
        }
        DescendingDeterminedByFilters(a[1..], b[1..], key);
        assert a == [a[0]] + a[1..] && b == [b[0]] + b[1..];
      }
    }
  }
}
