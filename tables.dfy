/** Relational operations that the three memory tables run against their rows
    (WHERE, ORDER BY ... DESC, LIMIT, DISTINCT, string joining), stated over
    sequences of rows so that every store shares one definition of each. */
module Tables {

  datatype Option<+T> = None | Some(value: T)

  /** A similarity score on the fuzzy matcher's 0..100 scale. */
  type Score = x: real | 0.0 <= x <= 100.0

  /** The external fuzzy matcher: scores a query against a candidate text.
      Its algorithm is not modelled; only its range is known. */
  type Scorer = (string, string) -> Score

  function Min(a: int, b: int): int { if a <= b then a else b }

  // ---------------------------------------------------------------------
  // WHERE: keep the rows satisfying a condition, in table order
  // ---------------------------------------------------------------------

  function Filter<T>(s: seq<T>, p: T -> bool): (r: seq<T>)
    ensures |r| <= |s|
    ensures forall i :: 0 <= i < |r| ==> r[i] in s && p(r[i])
    ensures forall i :: 0 <= i < |s| && p(s[i]) ==> s[i] in r
  {
    if s == [] then [] else (if p(s[0]) then [s[0]] else []) + Filter(s[1..], p)
  }

  lemma {:induction false} FilterAppend<T>(a: seq<T>, b: seq<T>, p: T -> bool)
    ensures Filter(a + b, p) == Filter(a, p) + Filter(b, p)
  {
    if a == [] {
      assert a + b == b;
    } else {
      assert (a + b)[1..] == a[1..] + b;
      FilterAppend(a[1..], b, p);
    }
  }

  /** A condition every row meets deletes nothing. */
  lemma {:induction false} FilterAll<T>(s: seq<T>, p: T -> bool)
    requires forall x :: x in s ==> p(x)
    ensures Filter(s, p) == s
  {
    if s != [] {
      FilterAll(s[1..], p);
    }
  }

  lemma {:induction false} FilterMultiset<T>(s: seq<T>, p: T -> bool, x: T)
    ensures multiset(Filter(s, p))[x] == if p(x) then multiset(s)[x] else 0
  {
    if s != [] {
      FilterMultiset(s[1..], p, x);
      var head := if p(s[0]) then [s[0]] else [];
      assert s == [s[0]] + s[1..];
      assert multiset(Filter(s, p)) == multiset(head) + multiset(Filter(s[1..], p));
    }
  }

  /** Keys that increase strictly along the table (an AUTOINCREMENT column). */
  predicate Increasing<T>(s: seq<T>, id: T -> int)
  {
    forall i, j :: 0 <= i < j < |s| ==> id(s[i]) < id(s[j])
  }

  /** Deleting rows keeps the remaining ones in table order. */
  lemma {:induction false} FilterIncreasing<T>(s: seq<T>, p: T -> bool, id: T -> int)
    requires Increasing(s, id)
    ensures Increasing(Filter(s, p), id)
  {
    if s != [] {
      FilterIncreasing(s[1..], p, id);
      var rest := Filter(s[1..], p);
      forall y | y in rest ensures id(s[0]) < id(y) {
        var j :| 0 <= j < |s[1..]| && s[1..][j] == y;
        assert s[j + 1] == y;
      }
    }
  }

  /** Rows with strictly increasing keys are told apart by their key ... */
  lemma IncreasingKeyIdentifies<T>(s: seq<T>, id: T -> int, x: T, y: T)
    requires Increasing(s, id)
    requires x in s && y in s && id(x) == id(y)
    ensures x == y
  {
  }

  /** ... and none of them occurs twice. */
  lemma {:induction false} IncreasingOccursOnce<T>(s: seq<T>, id: T -> int, x: T)
    requires Increasing(s, id)
    ensures multiset(s)[x] <= 1
  {
    if s != [] {
      assert s == [s[0]] + s[1..];
      IncreasingOccursOnce(s[1..], id, x);
      if x == s[0] {
        assert x !in s[1..];
      }
    }
  }

  /** The positions below `n` whose row satisfies `p`, in increasing order. */
  function MatchPositions<T>(s: seq<T>, p: T -> bool, n: nat): (idx: seq<nat>)
    requires n <= |s|
    ensures forall k :: 0 <= k < |idx| ==> idx[k] < n
  {
    if n == 0 then []
    else MatchPositions(s, p, n - 1) + (if p(s[n - 1]) then [n - 1] else [])
  }

  /** Each listed position is a match below `n`, the positions strictly
      increase, and no matching position is missing. */
  lemma {:induction false} MatchPositionsSpec<T>(s: seq<T>, p: T -> bool, n: nat)
    requires n <= |s|
    ensures var idx := MatchPositions(s, p, n);
      && (forall k :: 0 <= k < |idx| ==> idx[k] < n && p(s[idx[k]]))
      && (forall k, l :: 0 <= k < l < |idx| ==> idx[k] < idx[l])
      && (forall i :: 0 <= i < n && p(s[i]) ==> i in idx)
  {
    if n > 0 {
      MatchPositionsSpec(s, p, n - 1);
    }
  }

  /** WHERE keeps exactly the rows at the matching positions, in table order. */
  lemma {:induction false} FilterAtMatchPositions<T>(s: seq<T>, p: T -> bool, n: nat)
    requires n <= |s|
    ensures var idx := MatchPositions(s, p, n);
      && |Filter(s[..n], p)| == |idx|
      && forall k :: 0 <= k < |idx| ==> Filter(s[..n], p)[k] == s[idx[k]]
  {
    if n > 0 {
      var x := s[n - 1];
      FilterAtMatchPositions(s, p, n - 1);
      assert s[..n] == s[..n - 1] + [x];
      FilterAppend(s[..n - 1], [x], p);
      assert [x][1..] == [];
    }
  }

  // ---------------------------------------------------------------------
  // LIMIT n
  // ---------------------------------------------------------------------

  function Limit<T>(s: seq<T>, n: nat): seq<T>
  {
    if n < |s| then s[..n] else s
  }

  // ---------------------------------------------------------------------
  // ORDER BY k1 DESC, k2 DESC: a stable insertion sort on a pair of keys
  // ---------------------------------------------------------------------

  type Key = (int, int)

  /** `a` comes strictly before `b` in descending lexicographic order. */
  predicate Outranks(a: Key, b: Key)
  {
    a.0 > b.0 || (a.0 == b.0 && a.1 > b.1)
  }

  predicate RanksAtLeast(a: Key, b: Key)
  {
    !Outranks(b, a)
  }

  predicate SortedDesc<T>(s: seq<T>, key: T -> Key)
  {
    forall i, j :: 0 <= i < j < |s| ==> RanksAtLeast(key(s[i]), key(s[j]))
  }

  /** Inserts `x` before the first row that it ranks at least as high as. */
  function InsertDesc<T>(x: T, s: seq<T>, key: T -> Key): (r: seq<T>)
    requires SortedDesc(s, key)
    ensures SortedDesc(r, key)
    ensures multiset(r) == multiset(s) + multiset{x}
  {
    if s == [] || !Outranks(key(s[0]), key(x)) then
      PrependSorted(x, s, key);
      [x] + s
    else
      var rest := InsertDesc(x, s[1..], key);
      assert s == [s[0]] + s[1..];
      HeadRanksAtLeast(s[0], s[1..], x, rest, key);
      assert multiset([s[0]] + rest) == multiset{s[0]} + multiset(rest);
      [s[0]] + rest
  }

  /** A row ranking at least as high as the head of a sorted list may precede it. */
  lemma PrependSorted<T>(x: T, s: seq<T>, key: T -> Key)
    requires SortedDesc(s, key)
    requires s == [] || RanksAtLeast(key(x), key(s[0]))
    ensures SortedDesc([x] + s, key)
  {
    var r := [x] + s;
    forall i, j | 0 <= i < j < |r| ensures RanksAtLeast(key(r[i]), key(r[j])) {
      assert r[j] == s[j - 1];
      if i > 0 {
        assert r[i] == s[i - 1];
      } else if j > 1 {
        assert RanksAtLeast(key(s[0]), key(s[j - 1]));
      }
    }
  }

  /** A row ranking at least as high as every row of `tail` and strictly
      above `x` may head any sorted rearrangement of them. */
  lemma HeadRanksAtLeast<T>(h: T, tail: seq<T>, x: T, rest: seq<T>, key: T -> Key)
    requires forall j :: 0 <= j < |tail| ==> RanksAtLeast(key(h), key(tail[j]))
    requires Outranks(key(h), key(x))
    requires multiset(rest) == multiset(tail) + multiset{x}
    requires SortedDesc(rest, key)
    ensures SortedDesc([h] + rest, key)
  {
    forall i | 0 <= i < |rest| ensures RanksAtLeast(key(h), key(rest[i])) {
      assert rest[i] in multiset(rest);
      if rest[i] != x {
        assert rest[i] in multiset(tail);
        var j :| 0 <= j < |tail| && tail[j] == rest[i];
      }
    }
    var r := [h] + rest;
    forall i, j | 0 <= i < j < |r| ensures RanksAtLeast(key(r[i]), key(r[j])) {
      if i > 0 {
        assert r[i] == rest[i - 1] && r[j] == rest[j - 1];
      } else {
        assert r[j] == rest[j - 1];
      }
    }
  }

  /** The rows in descending key order; rows with equal keys keep table order. */
  function SortDesc<T>(s: seq<T>, key: T -> Key): (r: seq<T>)
    ensures SortedDesc(r, key)
    ensures multiset(r) == multiset(s)
  {
    if s == [] then []
    else
      assert s == [s[0]] + s[1..];
      InsertDesc(s[0], SortDesc(s[1..], key), key)
  }

  /** ORDER BY key DESC LIMIT k: the k highest-ranked rows, highest first. */
  function TopK<T>(s: seq<T>, key: T -> Key, k: nat): (r: seq<T>)
    ensures |r| == Min(k, |s|)
    ensures SortedDesc(r, key)
    ensures multiset(r) <= multiset(s)
    ensures forall x, i :: x in s && x !in r && 0 <= i < |r| ==> RanksAtLeast(key(r[i]), key(x))
  {
    var sorted := SortDesc(s, key);
    SortedPrefixIsTop(s, sorted, key, k);
    Limit(sorted, k)
  }

  /** The first k rows of a sorted rearrangement of `s` are its k
      highest-ranked rows. */
  lemma SortedPrefixIsTop<T>(s: seq<T>, sorted: seq<T>, key: T -> Key, k: nat)
    requires SortedDesc(sorted, key)
    requires multiset(sorted) == multiset(s)
    ensures var r := Limit(sorted, k);
      && |r| == Min(k, |s|)
      && SortedDesc(r, key)
      && multiset(r) <= multiset(s)
      && forall x, i :: x in s && x !in r && 0 <= i < |r| ==> RanksAtLeast(key(r[i]), key(x))
  {
    assert |sorted| == |multiset(sorted)| == |s|;
    var r := Limit(sorted, k);
    assert sorted == r + sorted[|r|..];
    assert multiset(sorted) == multiset(r) + multiset(sorted[|r|..]);
    forall x, i | x in s && x !in r && 0 <= i < |r|
      ensures RanksAtLeast(key(r[i]), key(x))
    {
      assert x in multiset(sorted);
      var j :| 0 <= j < |sorted| && sorted[j] == x;
      assert j >= |r|;
    }
  }

  // ---------------------------------------------------------------------
  // DISTINCT on a key: the first row of every key, in table order
  // ---------------------------------------------------------------------

  function KeysOf<T, K(==)>(s: seq<T>, key: T -> K): set<K>
  {
    set i | 0 <= i < |s| :: key(s[i])
  }

  lemma KeysOfAppend<T, K>(s: seq<T>, x: T, key: T -> K)
    ensures KeysOf(s + [x], key) == KeysOf(s, key) + {key(x)}
  {
    var ext := s + [x];
    forall v | v in KeysOf(ext, key) ensures v in KeysOf(s, key) + {key(x)} {
      var i :| 0 <= i < |ext| && key(ext[i]) == v;
      if i < |s| { assert ext[i] == s[i]; }
    }
    forall v | v in KeysOf(s, key) ensures v in KeysOf(ext, key) {
      var i :| 0 <= i < |s| && key(s[i]) == v;
      assert ext[i] == s[i];
    }
    assert ext[|s|] == x;
  }

  /** Scans the rows in order and keeps a row only when no kept row has its key. */
  function FirstOccurrences<T, K(==)>(s: seq<T>, key: T -> K): seq<T>
    decreases |s|
  {
    if s == [] then []
    else
      var kept := FirstOccurrences(s[..|s| - 1], key);
      if key(s[|s| - 1]) in KeysOf(kept, key) then kept else kept + [s[|s| - 1]]
  }

  /** Row `i` is the first row carrying its key. */
  predicate IsFirst<T, K(==)>(s: seq<T>, key: T -> K, i: nat)
    requires i < |s|
  {
    forall k :: 0 <= k < i ==> key(s[k]) != key(s[i])
  }

  /** The rows at first-occurrence positions among the first `n`, in table order. */
  function Firsts<T, K(==)>(s: seq<T>, key: T -> K, n: nat): seq<T>
    requires n <= |s|
  {
    if n == 0 then []
    else Firsts(s, key, n - 1) + (if IsFirst(s, key, n - 1) then [s[n - 1]] else [])
  }

  /** De-duplication loses no key. */
  lemma {:induction false} FirstOccurrencesKeys<T, K>(s: seq<T>, key: T -> K)
    ensures KeysOf(FirstOccurrences(s, key), key) == KeysOf(s, key)
    decreases |s|
  {
    if s != [] {
      var init := s[..|s| - 1];
      FirstOccurrencesKeys(init, key);
      assert s == init + [s[|s| - 1]];
      KeysOfAppend(init, s[|s| - 1], key);
      KeysOfAppend(FirstOccurrences(init, key), s[|s| - 1], key);
    }
  }

  /** De-duplication only drops rows. */
  lemma {:induction false} FirstOccurrencesFromInput<T, K>(s: seq<T>, key: T -> K)
    ensures forall x :: x in FirstOccurrences(s, key) ==> x in s
    decreases |s|
  {
    if s != [] {
      var init := s[..|s| - 1];
      FirstOccurrencesFromInput(init, key);
      assert s == init + [s[|s| - 1]];
    }
  }

  /** No two rows share a key. */
  predicate DistinctKeys<T, K(==)>(s: seq<T>, key: T -> K)
  {
    forall i, j :: 0 <= i < j < |s| ==> key(s[i]) != key(s[j])
  }

  /** No two kept rows share a key. */
  lemma {:induction false} FirstOccurrencesDistinct<T, K>(s: seq<T>, key: T -> K)
    ensures DistinctKeys(FirstOccurrences(s, key), key)
    decreases |s|
  {
    if s != [] {
      var kept := FirstOccurrences(s[..|s| - 1], key);
      FirstOccurrencesDistinct(s[..|s| - 1], key);
      if key(s[|s| - 1]) !in KeysOf(kept, key) {
        var r := kept + [s[|s| - 1]];
        forall i, j | 0 <= i < j < |r| ensures key(r[i]) != key(r[j]) {
          assert r[i] == kept[i];
          if j == |kept| {
            assert r[j] == s[|s| - 1];
            assert key(kept[i]) in KeysOf(kept, key);
          } else {
            assert r[j] == kept[j];
          }
        }
        assert FirstOccurrences(s, key) == r;
      }
    }
  }

  /** Rows whose keys are already distinct are all kept. */
  lemma {:induction false} FirstOccurrencesOfDistinct<T, K>(s: seq<T>, key: T -> K)
    requires DistinctKeys(s, key)
    ensures FirstOccurrences(s, key) == s
    decreases |s|
  {
    if s != [] {
      var init := s[..|s| - 1];
      assert DistinctKeys(init, key) by {
        forall i, j | 0 <= i < j < |init| ensures key(init[i]) != key(init[j]) {
          assert init[i] == s[i] && init[j] == s[j];
        }
      }
      FirstOccurrencesOfDistinct(init, key);
      assert init + [s[|s| - 1]] == s;
    }
  }

  /** The de-duplicated rows are exactly the rows at first-occurrence
      positions, in table order. */
  lemma {:induction false} FirstOccurrencesAreFirsts<T, K>(s: seq<T>, key: T -> K, n: nat)
    requires n <= |s|
    ensures FirstOccurrences(s[..n], key) == Firsts(s, key, n)
  {
    if n > 0 {
      FirstOccurrencesAreFirsts(s, key, n - 1);
      var pre := s[..n];
      assert pre[..n - 1] == s[..n - 1];
      assert pre[n - 1] == s[n - 1];
      FirstOccurrencesKeys(s[..n - 1], key);
      var kept := FirstOccurrences(s[..n - 1], key);
      if !IsFirst(s, key, n - 1) {
        var k :| 0 <= k < n - 1 && key(s[k]) == key(s[n - 1]);
        assert s[..n - 1][k] == s[k];
        assert key(s[n - 1]) in KeysOf(s[..n - 1], key);
      }
    }
  }

  // ---------------------------------------------------------------------
  // String joining ("sep".join(parts))
  // ---------------------------------------------------------------------

  function Join(parts: seq<string>, sep: string): string
  {
    if |parts| == 0 then ""
    else if |parts| == 1 then parts[0]
    else parts[0] + sep + Join(parts[1..], sep)
  }

  predicate StartsWith(text: string, prefix: string)
  {
    |prefix| <= |text| && text[..|prefix|] == prefix
  }

  predicate EndsWith(text: string, suffix: string)
  {
    |suffix| <= |text| && text[|text| - |suffix|..] == suffix
  }

  /** `part` occurs somewhere inside `text`. */
  ghost predicate Contains(text: string, part: string)
  {
    exists k :: OccursAt(text, part, k)
  }

  predicate OccursAt(text: string, part: string, k: int)
  {
    0 <= k && k + |part| <= |text| && text[k..k + |part|] == part
  }

  lemma ContainsInPrefix(front: string, back: string, part: string)
    requires Contains(front, part)
    ensures Contains(front + back, part)
  {
    var k :| OccursAt(front, part, k);
    assert (front + back)[k..k + |part|] == front[k..k + |part|];
    assert OccursAt(front + back, part, k);
  }

  lemma ContainsInSuffix(front: string, back: string, part: string)
    requires Contains(back, part)
    ensures Contains(front + back, part)
  {
    var k :| OccursAt(back, part, k);
    assert (front + back)[|front| + k..|front| + k + |part|] == part;
    assert OccursAt(front + back, part, |front| + k);
  }

  /** Every joined part can be found in the joined text. */
  lemma {:induction false} JoinContainsParts(parts: seq<string>, sep: string)
    ensures forall i :: 0 <= i < |parts| ==> Contains(Join(parts, sep), parts[i])
  {
    if |parts| == 1 {
      assert OccursAt(Join(parts, sep), parts[0], 0);
    } else if |parts| > 1 {
      var text := Join(parts, sep);
      JoinContainsParts(parts[1..], sep);
      forall i | 0 <= i < |parts| ensures Contains(text, parts[i]) {
        if i == 0 {
          assert text[0..|parts[0]|] == parts[0];
          assert OccursAt(text, parts[0], 0);
        } else {
          assert parts[1..][i - 1] == parts[i];
          ContainsInSuffix(parts[0] + sep, Join(parts[1..], sep), parts[i]);
        }
      }
    }
  }
}
