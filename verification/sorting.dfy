/** Python's `sorted(items, key=...)` on lists of names: a stable sort, here
    an insertion sort, together with "take the last one" as the scripts use
    it to pick the most recently modified entry. */
module Sorting {
  import opened Wrappers
  import Text

  /** `le` is total and transitive, as `<=` on numbers or on strings is. */
  ghost predicate TotalPreorder<K(!new)>(le: (K, K) -> bool)
  {
    && (forall a, b :: le(a, b) || le(b, a))
    && (forall a, b, c :: le(a, b) && le(b, c) ==> le(a, c))
  }

  ghost predicate SortedBy<K>(s: seq<string>, key: string -> K, le: (K, K) -> bool)
  {
    forall i, j :: 0 <= i < j < |s| ==> le(key(s[i]), key(s[j]))
  }

  /** Puts `x` in front of the first element whose key is not below its
      own, so that `x` precedes every element of equal key. */
  function Insert<K>(x: string, s: seq<string>, key: string -> K, le: (K, K) -> bool): (r: seq<string>)
    ensures multiset(r) == multiset(s) + multiset{x}
  {
    if s == [] then [x]
    else if le(key(x), key(s[0])) then [x] + s
    else
      assert s == [s[0]] + s[1..];
      [s[0]] + Insert(x, s[1..], key, le)
  }

  /** `sorted(s, key=key)`: earlier elements are inserted in front of later
      elements with an equal key, which makes the sort stable. */
  function SortBy<K>(s: seq<string>, key: string -> K, le: (K, K) -> bool): (r: seq<string>)
    ensures multiset(r) == multiset(s)
  {
    if s == [] then []
    else
      assert s == [s[0]] + s[1..];
      Insert(s[0], SortBy(s[1..], key, le), key, le)
  }

  lemma {:induction false} InsertSorted<K(!new)>(x: string, s: seq<string>, key: string -> K, le: (K, K) -> bool)
    requires TotalPreorder(le) && SortedBy(s, key, le)
    ensures SortedBy(Insert(x, s, key, le), key, le)
    decreases |s|
  {
    if s != [] && !le(key(x), key(s[0])) {
      var rest := Insert(x, s[1..], key, le);
      InsertSorted(x, s[1..], key, le);
      InsertKeepsLowerBound(x, s, key, le);
      ConsSorted(s[0], rest, key, le);
    }
  }

  /** When `x` goes after the head of a sorted `s`, the head's key is a lower
      bound of everything inserted behind it. */
  lemma InsertKeepsLowerBound<K(!new)>(x: string, s: seq<string>, key: string -> K, le: (K, K) -> bool)
    requires TotalPreorder(le) && SortedBy(s, key, le)
    requires s != [] && !le(key(x), key(s[0]))
    ensures forall y :: y in Insert(x, s[1..], key, le) ==> le(key(s[0]), key(y))
  {
    var rest := Insert(x, s[1..], key, le);
    forall y | y in rest
      ensures le(key(s[0]), key(y))
    {
      assert y in multiset(rest);
      if y != x {
        assert y in multiset(s[1..]);
        var m :| 0 <= m < |s[1..]| && s[1..][m] == y;
        assert s[m + 1] == y;
      }
    }
  }

  lemma ConsSorted<K>(h: string, rest: seq<string>, key: string -> K, le: (K, K) -> bool)
    requires SortedBy(rest, key, le)
    requires forall y :: y in rest ==> le(key(h), key(y))
    ensures SortedBy([h] + rest, key, le)
  {
    var r := [h] + rest;
    forall i, j | 0 <= i < j < |r|
      ensures le(key(r[i]), key(r[j]))
    {
      assert r[j] == rest[j - 1];
      if i > 0 {
        assert r[i] == rest[i - 1];
      }
    }
  }

  /** The result of `SortBy` is in key order. */
  lemma {:induction false} SortBySorted<K(!new)>(s: seq<string>, key: string -> K, le: (K, K) -> bool)
    requires TotalPreorder(le)
    ensures SortedBy(SortBy(s, key, le), key, le)
    decreases |s|
  {
    if s != [] {
      SortBySorted(s[1..], key, le);
      InsertSorted(s[0], SortBy(s[1..], key, le), key, le);
    }
  }

  predicate IntLe(a: int, b: int)
  {
    a <= b
  }

  lemma IntLeTotalPreorder()
    ensures TotalPreorder(IntLe)
  {
  }

  lemma LexLeTotalPreorder()
    ensures TotalPreorder(Text.LexLe)
  {
    forall a, b
      ensures Text.LexLe(a, b) || Text.LexLe(b, a)
    {
      Text.LexLeTotal(a, b);
    }
    forall a, b, c | Text.LexLe(a, b) && Text.LexLe(b, c)
      ensures Text.LexLe(a, c)
    {
      Text.LexLeTransitive(a, b, c);
    }
  }

  /** The last element of a sorted sequence has the greatest key. */
  lemma LastIsGreatest(s: seq<string>, key: string -> int)
    requires SortedBy(s, key, IntLe) && s != []
    ensures forall y :: y in s ==> key(y) <= key(s[|s| - 1])
  {
    forall y | y in s
      ensures key(y) <= key(s[|s| - 1])
    {
      var i :| 0 <= i < |s| && s[i] == y;
      if i < |s| - 1 {
        assert IntLe(key(s[i]), key(s[|s| - 1]));
      }
    }
  }

  /** `sorted(s, key=key)[-1]` when `s` is not empty: an element of `s`
      whose key is the greatest. */
  function LastByKey(s: seq<string>, key: string -> int): (r: Option<string>)
    ensures r.None? <==> s == []
    ensures r.Some? ==> r.value in s && forall y :: y in s ==> key(y) <= key(r.value)
  {
    if s == [] then None
    else
      var sorted := SortBy(s, key, IntLe);
      IntLeTotalPreorder();
      SortBySorted(s, key, IntLe);
      assert |sorted| == |multiset(s)| == |s|;
      LastIsGreatest(sorted, key);
      var last := sorted[|sorted| - 1];
      assert last in multiset(sorted);
      assert forall y :: y in s <==> y in multiset(sorted);
      Some(last)
  }
}
