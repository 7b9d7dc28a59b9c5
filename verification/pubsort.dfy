/** `pubs.sort(key=lambda x: (x.year or 0, x.title or ""), reverse=True)`:
    a stable sort, descending on the tuple key. Python keeps equal keys in
    their original order even with `reverse=True`, so the insertion below
    puts a record in front of the first one whose key is not greater. */
module PubSort {
  import opened StrOrder
  import opened Publication

  /** The sort key: year (a missing year counts as 0), then title (a
      missing title counts as the empty string). */
  datatype Key = Key(year: int, title: string)

  /** `(x.get("year") or 0, x.get("title") or "")`. A year of 0 and a
      missing year give the same key, as do `""` and a missing title. */
  function KeyOf(p: Pub): (r: Key)
    ensures p.year.None? ==> r.year == 0
    ensures p.year.Some? ==> r.year == p.year.value
    ensures p.title.None? ==> r.title == ""
    ensures p.title.Some? ==> r.title == p.title.value
  {
    Key(p.year.GetOr(0), p.title.GetOr(""))
  }

  /** Python's tuple `<`: the first component that differs decides, so the
      year decides unless the years are equal, and then the title does, by
      its first differing code point, a proper prefix first. */
  predicate KeyLt(a: Key, b: Key)
    ensures a.year != b.year ==> (KeyLt(a, b) <==> a.year < b.year)
    ensures a.year == b.year ==> (KeyLt(a, b) <==> FirstDifferenceLess(a.title, b.title))
  {
    a.year < b.year || (a.year == b.year && StrLt(a.title, b.title))
  }

  /** `a` may come before `b` in a descending order: key(a) >= key(b). */
  predicate Ordered(a: Pub, b: Pub) {
    !KeyLt(KeyOf(a), KeyOf(b))
  }

  /** Every neighbouring pair is in descending key order. */
  predicate SortedDesc(s: seq<Pub>) {
    forall i, j :: 0 <= i < |s| && 0 <= j < |s| && j == i + 1 ==> Ordered(s[i], s[j])
  }

  /** The records of `s` whose key is `k`, in the order of `s`. */
  function WithKey(s: seq<Pub>, k: Key): seq<Pub> {
    if |s| == 0 then []
    else (if KeyOf(s[0]) == k then [s[0]] else []) + WithKey(s[1..], k)
  }

  /** `r` lists the records of each key in the same order as `s` does. */
  ghost predicate SameTies(r: seq<Pub>, s: seq<Pub>) {
    forall k :: WithKey(r, k) == WithKey(s, k)
  }

  lemma KeyLtIrreflexive(a: Key)
    ensures !KeyLt(a, a)
  {
    StrLtIrreflexive(a.title);
  }

  lemma KeyLtAsymmetric(a: Key, b: Key)
    requires KeyLt(a, b)
    ensures !KeyLt(b, a)
  {
    if a.year == b.year {
      StrLtAsymmetric(a.title, b.title);
    }
  }

  lemma KeyLtTotal(a: Key, b: Key)
    ensures a == b || KeyLt(a, b) || KeyLt(b, a)
  {
    StrLtTotal(a.title, b.title);
  }

  lemma KeyLtTransitive(a: Key, b: Key, c: Key)
    requires KeyLt(a, b) && KeyLt(b, c)
    ensures KeyLt(a, c)
  {
    if a.year == b.year == c.year {
      StrLtTransitive(a.title, b.title, c.title);
    }
  }

  /** Descending order is transitive. */
  lemma OrderedTransitive(a: Pub, b: Pub, c: Pub)
    requires Ordered(a, b) && Ordered(b, c)
    ensures Ordered(a, c)
  {
    var ka, kb, kc := KeyOf(a), KeyOf(b), KeyOf(c);
    KeyLtTotal(ka, kb);
    KeyLtTotal(kb, kc);
    if ka != kb && kb != kc {
      KeyLtTransitive(kc, kb, ka);
      KeyLtAsymmetric(kc, ka);
    }
  }

  /** Put `x` in front of the first record whose key is not greater. */
  function Insert(x: Pub, s: seq<Pub>): (r: seq<Pub>)
    ensures |r| == |s| + 1
    ensures |r| > 0 && (r[0] == x || (|s| > 0 && r[0] == s[0]))
    ensures SortedDesc(s) ==> SortedDesc(r)
  {
    if |s| == 0 then [x]
    else if Ordered(x, s[0]) then [x] + s
    else
      KeyLtAsymmetric(KeyOf(x), KeyOf(s[0]));
      assert s == [s[0]] + s[1..];
      [s[0]] + Insert(x, s[1..])
  }

  /** Insertion sort: each record is inserted into the sorted rest. */
  function Sort(s: seq<Pub>): (r: seq<Pub>)
    ensures SortedDesc(r)
    ensures |r| == |s|
  {
    if |s| == 0 then []
    else
      assert s == [s[0]] + s[1..];
      Insert(s[0], Sort(s[1..]))
  }

  /** Insertion adds exactly the one record. */
  lemma {:induction false} InsertPermutes(x: Pub, s: seq<Pub>)
    ensures multiset(Insert(x, s)) == multiset(s) + multiset{x}
    decreases |s|
  {
    if |s| > 0 && !Ordered(x, s[0]) {
      InsertPermutes(x, s[1..]);
      assert s == [s[0]] + s[1..];
    }
  }

  /** The sort is a permutation: same records, same multiplicities. */
  lemma {:induction false} SortPermutes(s: seq<Pub>)
    ensures multiset(Sort(s)) == multiset(s)
    decreases |s|
  {
    if |s| > 0 {
      SortPermutes(s[1..]);
      InsertPermutes(s[0], Sort(s[1..]));
      assert s == [s[0]] + s[1..];
    }
  }

  lemma {:induction false} WithKeyAppend(a: seq<Pub>, b: seq<Pub>, k: Key)
    ensures WithKey(a + b, k) == WithKey(a, k) + WithKey(b, k)
    decreases |a|
  {
    if |a| > 0 {
      assert (a + b)[1..] == a[1..] + b;
      WithKeyAppend(a[1..], b, k);
    } else {
      assert a + b == b;
    }
  }

  /** Insertion keeps the relative order of equal keys, `x` first. */
  lemma {:induction false} InsertKeepsTies(x: Pub, s: seq<Pub>, k: Key)
    ensures WithKey(Insert(x, s), k) == WithKey([x] + s, k)
    decreases |s|
  {
    if |s| > 0 && !Ordered(x, s[0]) {
      KeyLtIrreflexive(KeyOf(x));
      InsertKeepsTies(x, s[1..], k);
      WithKeyAppend([s[0]], Insert(x, s[1..]), k);
      WithKeyAppend([x], s[1..], k);
      WithKeyAppend([s[0]], [x] + s[1..], k);
      WithKeyAppend([x], s, k);
      WithKeyAppend([s[0]], s[1..], k);
      assert s == [s[0]] + s[1..];
    }
  }

  /** The sort is stable: records with equal keys keep their input order. */
  lemma {:induction false} SortKeepsTies(s: seq<Pub>)
    ensures SameTies(Sort(s), s)
    decreases |s|
  {
    if |s| > 0 {
      SortKeepsTies(s[1..]);
      forall k ensures WithKey(Sort(s), k) == WithKey(s, k) {
        InsertKeepsTies(s[0], Sort(s[1..]), k);
        WithKeyAppend([s[0]], Sort(s[1..]), k);
        WithKeyAppend([s[0]], s[1..], k);
        assert s == [s[0]] + s[1..];
      }
    }
  }

  /** Neighbouring order gives order between any two positions. */
  lemma {:induction false} SortedAllPairs(s: seq<Pub>, i: int, j: int)
    requires SortedDesc(s)
    requires 0 <= i < j < |s|
    ensures Ordered(s[i], s[j])
    decreases j - i
  {
    if j > i + 1 {
      SortedAllPairs(s, i, j - 1);
      OrderedTransitive(s[i], s[j - 1], s[j]);
    }
  }

  lemma {:induction false} WithKeyMember(s: seq<Pub>, k: Key, x: Pub)
    requires x in WithKey(s, k)
    ensures x in s && KeyOf(x) == k
    decreases |s|
  {
    if x != s[0] || KeyOf(s[0]) != k {
      WithKeyMember(s[1..], k, x);
    }
  }

  /** The head of a sorted sequence has the greatest key of any member. */
  lemma SortedHeadFirst(s: seq<Pub>, x: Pub)
    requires SortedDesc(s) && x in s
    ensures Ordered(s[0], x)
  {
    var j :| 0 <= j < |s| && s[j] == x;
    if j > 0 {
      SortedAllPairs(s, 0, j);
    } else {
      KeyLtIrreflexive(KeyOf(x));
    }
  }

  /** The first record is always among those with its own key. */
  lemma NonEmptyWithOwnKey(s: seq<Pub>)
    ensures |s| > 0 ==> |WithKey(s, KeyOf(s[0]))| > 0
  {
  }

  /** Sortedness and stability determine the order completely: two sorted
      sequences with the same records per key, in the same order per key,
      are equal. */
  lemma {:induction false} SortedTiesUnique(a: seq<Pub>, b: seq<Pub>)
    requires SortedDesc(a) && SortedDesc(b)
    requires forall k :: WithKey(a, k) == WithKey(b, k)
    ensures a == b
    decreases |a|
  {
    if |a| == 0 && |b| > 0 {
      NonEmptyWithOwnKey(b);
      assert false;
    } else if |a| > 0 && |b| == 0 {
      NonEmptyWithOwnKey(a);
      assert false;
    } else if |a| > 0 {
      var ka, kb := KeyOf(a[0]), KeyOf(b[0]);
      assert WithKey(a, ka)[0] == a[0];
      WithKeyMember(b, ka, a[0]);
      SortedHeadFirst(b, a[0]);
      assert WithKey(b, kb)[0] == b[0];
      WithKeyMember(a, kb, b[0]);
      SortedHeadFirst(a, b[0]);
      KeyLtTotal(ka, kb);
      assert ka == kb;
      assert a[0] == WithKey(a, ka)[0] == WithKey(b, ka)[0] == b[0];
      forall k ensures WithKey(a[1..], k) == WithKey(b[1..], k) {
        var head := if ka == k then [a[0]] else [];
        assert WithKey(a, k) == head + WithKey(a[1..], k);
        assert WithKey(b, k) == head + WithKey(b[1..], k);
        assert WithKey(a[1..], k) == WithKey(a, k)[|head|..];
      }
      SortedTiesUnique(a[1..], b[1..]);
      assert a == [a[0]] + a[1..] && b == [b[0]] + b[1..];
    }
  }

  /** The sort's output is the one and only sorted arrangement of its input
      that keeps ties in input order. */
  lemma SortIsUnique(s: seq<Pub>, r: seq<Pub>)
    requires SortedDesc(r) && SameTies(r, s)
    ensures r == Sort(s)
  {
    SortKeepsTies(s);
    SortedTiesUnique(r, Sort(s));
  }

  lemma SortedTail(s: seq<Pub>)
    requires SortedDesc(s) && |s| > 0
    ensures SortedDesc(s[1..])
  {
  }

  /** An already sorted sequence is left as it is. */
  lemma {:induction false} SortSorted(s: seq<Pub>)
    requires SortedDesc(s)
    ensures Sort(s) == s
    decreases |s|
  {
    if |s| > 0 {
      var t := s[1..];
      SortedTail(s);
      SortSorted(t);
      if |t| > 0 {
        assert Ordered(s[0], s[1]);
      }
      assert Insert(s[0], t) == [s[0]] + t == s;
    }
  }

  /** Sorting twice is sorting once. */
  lemma SortIdempotent(s: seq<Pub>)
    ensures Sort(Sort(s)) == Sort(s)
  {
    SortSorted(Sort(s));
  }
}
