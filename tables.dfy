/**
  Column operations the dashboard applies to its table through pandas: row
  filters, column sums, grouping by a key, `unique()`, and ordering rows by a
  numeric column (`nlargest`, `sort_values`).  Generic over the row type; a
  column is a function from a row to its cell.
 */
module Tables {
  // ---------------------------------------------------------------- filters

  /** Each position moved one row down. */
  ghost function Shift(ks: seq<nat>): (r: seq<nat>)
    ensures |r| == |ks|
    ensures forall k :: 0 <= k < |ks| ==> r[k] == ks[k] + 1
  {
    seq(|ks|, k requires 0 <= k < |ks| => ks[k] + 1)
  }

  /** `ks` lists, ascending, exactly the positions of `s` whose rows pass the mask. */
  ghost predicate PassingPositions<T>(s: seq<T>, p: T -> bool, ks: seq<nat>)
  {
    && (forall k :: 0 <= k < |ks| ==> ks[k] < |s| && p(s[ks[k]]))
    && (forall k, l :: 0 <= k < l < |ks| ==> ks[k] < ks[l])
    && (forall i :: 0 <= i < |s| && p(s[i]) ==> i in ks)
  }

  /** The positions of the rows that pass a mask, ascending: every passing position once. */
  ghost function Kept<T>(s: seq<T>, p: T -> bool): seq<nat>
  {
    if s == [] then [] else (if p(s[0]) then [0] else []) + Shift(Kept(s[1..], p))
  }

  lemma {:induction false} KeptStep<T>(s: seq<T>, p: T -> bool, rest: seq<nat>)
    requires s != [] && PassingPositions(s[1..], p, rest)
    ensures PassingPositions(s, p, (if p(s[0]) then [0] else []) + Shift(rest))
  {
    var head: seq<nat> := if p(s[0]) then [0] else [];
    KeptStepPassing(s, p, rest, head);
    KeptStepAscending(rest, head);
    KeptStepComplete(s, p, rest, head);
  }

  lemma {:induction false} KeptStepPassing<T>(s: seq<T>, p: T -> bool, rest: seq<nat>, head: seq<nat>)
    requires s != [] && PassingPositions(s[1..], p, rest)
    requires head == if p(s[0]) then [0] else []
    ensures forall k :: 0 <= k < |head + Shift(rest)| ==> (head + Shift(rest))[k] < |s| && p(s[(head + Shift(rest))[k]])
  {
    var ks := head + Shift(rest);
    forall k | 0 <= k < |ks| ensures ks[k] < |s| && p(s[ks[k]]) {
      if k >= |head| {
        var m := k - |head|;
        assert ks[k] == rest[m] + 1;
        assert s[1..][rest[m]] == s[rest[m] + 1];
      }
    }
  }

  lemma {:induction false} KeptStepAscending(rest: seq<nat>, head: seq<nat>)
    requires forall k, l :: 0 <= k < l < |rest| ==> rest[k] < rest[l]
    requires head == [] || head == [0]
    ensures forall k, l :: 0 <= k < l < |head + Shift(rest)| ==> (head + Shift(rest))[k] < (head + Shift(rest))[l]
  {
    var ks := head + Shift(rest);
    forall k, l | 0 <= k < l < |ks| ensures ks[k] < ks[l] {
      assert ks[l] == rest[l - |head|] + 1;
      if k >= |head| {
        assert ks[k] == rest[k - |head|] + 1;
      }
    }
  }

  lemma {:induction false} KeptStepComplete<T>(s: seq<T>, p: T -> bool, rest: seq<nat>, head: seq<nat>)
    requires s != [] && PassingPositions(s[1..], p, rest)
    requires head == if p(s[0]) then [0] else []
    ensures forall i :: 0 <= i < |s| && p(s[i]) ==> i in head + Shift(rest)
  {
    var ks := head + Shift(rest);
    forall i | 0 <= i < |s| && p(s[i]) ensures i in ks {
      if i == 0 {
        assert ks[0] == 0;
      } else {
        assert s[1..][i - 1] == s[i];
        var m :| 0 <= m < |rest| && rest[m] == i - 1;
        assert ks[|head| + m] == i;
      }
    }
  }

  /** The rows that satisfy a mask, in table order (see `FilterOrder`). */
  function Filter<T>(s: seq<T>, p: T -> bool): (r: seq<T>)
    ensures |r| <= |s|
    ensures forall i :: 0 <= i < |r| ==> p(r[i])
    ensures forall i :: 0 <= i < |s| && p(s[i]) ==> s[i] in r
    ensures forall x :: x in r ==> x in s
  {
    if s == [] then []
    else if p(s[0]) then [s[0]] + Filter(s[1..], p)
    else Filter(s[1..], p)
  }

  /**
    A filter keeps table order: its result is the table read at exactly the
    passing positions, ascending.
   */
  lemma {:induction false} FilterOrder<T>(s: seq<T>, p: T -> bool)
    ensures PassingPositions(s, p, Kept(s, p))
    ensures |Filter(s, p)| == |Kept(s, p)|
    ensures forall k :: 0 <= k < |Filter(s, p)| ==> Kept(s, p)[k] < |s| && Filter(s, p)[k] == s[Kept(s, p)[k]]
  {
    KeptPositions(s, p);
    FilterAtKept(s, p);
  }

  lemma {:induction false} KeptPositions<T>(s: seq<T>, p: T -> bool)
    ensures PassingPositions(s, p, Kept(s, p))
  {
    if s != [] {
      KeptPositions(s[1..], p);
      KeptStep(s, p, Kept(s[1..], p));
    }
  }

  lemma {:induction false} FilterAtKept<T>(s: seq<T>, p: T -> bool)
    ensures |Filter(s, p)| == |Kept(s, p)|
    ensures forall k :: 0 <= k < |Filter(s, p)| ==> Kept(s, p)[k] < |s| && Filter(s, p)[k] == s[Kept(s, p)[k]]
  {
    if s != [] {
      FilterAtKept(s[1..], p);
      var rest, ks := Filter(s[1..], p), Kept(s[1..], p);
      assert forall k :: 0 <= k < |rest| ==> ks[k] + 1 < |s| && rest[k] == s[ks[k] + 1];
      IndexedCons(s, rest, ks, p(s[0]));
    }
  }

  /** Prepending the head row, or not, to rows read at given positions of the tail. */
  lemma {:induction false} IndexedCons<T>(s: seq<T>, rest: seq<T>, ks: seq<nat>, take: bool)
    requires s != [] && |rest| == |ks|
    requires forall k :: 0 <= k < |ks| ==> ks[k] + 1 < |s| && rest[k] == s[ks[k] + 1]
    ensures var f, kept := (if take then [s[0]] else []) + rest, (if take then [0] else []) + Shift(ks);
            |f| == |kept| && forall k :: 0 <= k < |f| ==> kept[k] < |s| && f[k] == s[kept[k]]
  {
  }

  /** A mask and its negation split the rows: nothing is lost and nothing is duplicated. */
  lemma {:induction false} FilterPartition<T>(s: seq<T>, p: T -> bool, q: T -> bool)
    requires forall x :: q(x) == !p(x)
    ensures multiset(Filter(s, p)) + multiset(Filter(s, q)) == multiset(s)
  {
    if s != [] {
      var x, tail := s[0], s[1..];
      FilterPartition(tail, p, q);
      assert multiset(s) == multiset{x} + multiset(tail) by {
        assert s == [x] + tail;
      }
      if p(x) {
        assert Filter(s, q) == Filter(tail, q);
        assert multiset(Filter(s, p)) == multiset{x} + multiset(Filter(tail, p));
      } else {
        assert Filter(s, p) == Filter(tail, p);
        assert multiset(Filter(s, q)) == multiset{x} + multiset(Filter(tail, q));
      }
    }
  }

  /** One step of a filter: the head is kept exactly when it passes. */
  lemma {:induction false} FilterCons<T>(s: seq<T>, p: T -> bool)
    requires s != []
    ensures multiset(Filter(s, p)) == (if p(s[0]) then multiset{s[0]} else multiset{}) + multiset(Filter(s[1..], p))
  {
  }

  /** Reordering rows keeps the same rows: a row is in one exactly when it is in the other. */
  lemma {:induction false} SameMembers<T>(s: seq<T>, r: seq<T>)
    requires multiset(r) == multiset(s)
    ensures forall x :: x in r <==> x in s
  {
    forall x ensures x in r <==> x in s {
      assert x in r <==> x in multiset(r);
      assert x in s <==> x in multiset(s);
    }
  }

  /** Every row of a filtered table passes the filter. */
  lemma {:induction false} InFilter<T>(s: seq<T>, p: T -> bool, x: T)
    requires x in Filter(s, p)
    ensures p(x)
  {
    var f := Filter(s, p);
    var i :| 0 <= i < |f| && f[i] == x;
  }

  /** A filter holds no row more often than the table does. */
  lemma {:induction false} FilterIncluded<T>(s: seq<T>, p: T -> bool)
    ensures multiset(Filter(s, p)) <= multiset(s)
  {
    if s != [] {
      FilterIncluded(s[1..], p);
      assert multiset(s) == multiset{s[0]} + multiset(s[1..]) by {
        assert s == [s[0]] + s[1..];
      }
      if p(s[0]) {
        assert multiset(Filter(s, p)) == multiset{s[0]} + multiset(Filter(s[1..], p));
      } else {
        assert Filter(s, p) == Filter(s[1..], p);
      }
    }
  }

  /** A filter that no row passes selects nothing. */
  lemma {:induction false} FilterNone<T>(s: seq<T>, p: T -> bool)
    requires forall i :: 0 <= i < |s| ==> !p(s[i])
    ensures Filter(s, p) == []
  {
    if s != [] {
      FilterNone(s[1..], p);
    }
  }

  // ---------------------------------------------------------------- sums

  /** Sum of a column. */
  function SumBy<T>(s: seq<T>, f: T -> real): real
  {
    if s == [] then 0.0 else f(s[0]) + SumBy(s[1..], f)
  }

  /** Sum of an integer column. */
  function SumInt<T>(s: seq<T>, f: T -> int): int
  {
    if s == [] then 0 else f(s[0]) + SumInt(s[1..], f)
  }

  lemma {:induction false} SumByAppend<T>(a: seq<T>, b: seq<T>, f: T -> real)
    ensures SumBy(a + b, f) == SumBy(a, f) + SumBy(b, f)
  {
    if a == [] {
      assert a + b == b;
    } else {
      assert (a + b)[1..] == a[1..] + b;
      SumByAppend(a[1..], b, f);
    }
  }

  /** A sum does not depend on the order of the rows. */
  lemma {:induction false} SumByPermutation<T>(a: seq<T>, b: seq<T>, f: T -> real)
    requires multiset(a) == multiset(b)
    ensures SumBy(a, f) == SumBy(b, f)
  {
    if a == [] {
      assert |b| == |multiset(b)| == 0;
    } else {
      var x := a[0];
      assert a == [x] + a[1..];
      assert x in multiset(b);
      var k :| 0 <= k < |b| && b[k] == x;
      assert b == b[..k] + [x] + b[k + 1..];
      var rest := b[..k] + b[k + 1..];
      assert multiset(b) == multiset(b[..k]) + multiset{x} + multiset(b[k + 1..]);
      assert multiset(a) == multiset{x} + multiset(a[1..]);
      assert multiset(rest) == multiset(b[..k]) + multiset(b[k + 1..]);
      assert multiset(rest) == multiset(b) - multiset{x};
      assert multiset(a[1..]) == multiset(a) - multiset{x};
      SumByPermutation(a[1..], rest, f);
      SumByAppend(b[..k] + [x], b[k + 1..], f);
      SumByAppend(b[..k], [x], f);
      SumByAppend(b[..k], b[k + 1..], f);
    }
  }

  /** An integer column summed as reals gives the same total. */
  lemma {:induction false} SumIntAsReal<T>(s: seq<T>, f: T -> int, g: T -> real)
    requires forall x :: g(x) == f(x) as real
    ensures SumInt(s, f) as real == SumBy(s, g)
  {
    if s != [] {
      SumIntAsReal(s[1..], f, g);
    }
  }

  function One<T>(x: T): real
  {
    1.0
  }

  /** Summing a column of ones counts the rows. */
  lemma {:induction false} SumByOne<T>(s: seq<T>)
    ensures SumBy(s, One) == |s| as real
  {
    if s != [] {
      SumByOne(s[1..]);
    }
  }

  // ---------------------------------------------------------------- grouping

  predicate Distinct<K(==)>(s: seq<K>)
  {
    forall i, j :: 0 <= i < j < |s| ==> s[i] != s[j]
  }

  /** The rows of one group, in table order (`df[df[col] == k]`). */
  function Where<T>(s: seq<T>, group: T -> string, k: string): (r: seq<T>)
    ensures |r| <= |s|
    ensures forall i :: 0 <= i < |r| ==> group(r[i]) == k
    ensures forall x :: x in r ==> x in s
    ensures forall i :: 0 <= i < |s| && group(s[i]) == k ==> s[i] in r
  {
    if s == [] then []
    else if group(s[0]) == k then [s[0]] + Where(s[1..], group, k)
    else Where(s[1..], group, k)
  }

  /** A mask `col == k` on the key column. */
  function GroupIs<T>(group: T -> string, k: string): T -> bool
  {
    x => group(x) == k
  }

  /** `df[df[col] == k]` is the filter by that mask, so its rows keep their table order. */
  lemma {:induction false} WhereIsFilter<T>(s: seq<T>, group: T -> string, k: string)
    ensures Where(s, group, k) == Filter(s, GroupIs(group, k))
  {
    if s != [] {
      WhereIsFilter(s[1..], group, k);
    }
  }

  /** The key column as a sequence. */
  function Keys<T>(s: seq<T>, group: T -> string): (r: seq<string>)
    ensures |r| == |s|
    ensures forall i :: 0 <= i < |s| ==> r[i] == group(s[i])
  {
    seq(|s|, i requires 0 <= i < |s| => group(s[i]))
  }

  /** Sum of a column over each group in turn, for a list of group keys. */
  function GroupSums<T>(s: seq<T>, group: T -> string, keys: seq<string>, f: T -> real): real
  {
    if keys == [] then 0.0
    else SumBy(Where(s, group, keys[0]), f) + GroupSums(s, group, keys[1..], f)
  }

  lemma {:induction false} GroupSumsNoRows<T>(group: T -> string, keys: seq<string>, f: T -> real)
    ensures GroupSums([], group, keys, f) == 0.0
  {
    if keys != [] {
      GroupSumsNoRows(group, keys[1..], f);
    }
  }

  lemma {:induction false} GroupSumsCons<T>(x: T, s: seq<T>, group: T -> string, keys: seq<string>, f: T -> real)
    requires Distinct(keys)
    ensures GroupSums([x] + s, group, keys, f)
         == GroupSums(s, group, keys, f) + (if group(x) in keys then f(x) else 0.0)
  {
    if keys != [] {
      assert ([x] + s)[1..] == s;
      GroupSumsCons(x, s, group, keys[1..], f);
      assert group(x) in keys <==> group(x) == keys[0] || group(x) in keys[1..];
      assert group(x) == keys[0] ==> group(x) !in keys[1..];
    }
  }

  /**
    Grouping conserves sums: when every row's key is among a list of distinct keys,
    the per-group sums add up to the sum over the whole table.
   */
  lemma {:induction false} GroupSumsTotal<T>(s: seq<T>, group: T -> string, keys: seq<string>, f: T -> real)
    requires Distinct(keys)
    requires forall i :: 0 <= i < |s| ==> group(s[i]) in keys
    ensures GroupSums(s, group, keys, f) == SumBy(s, f)
  {
    if s == [] {
      GroupSumsNoRows(group, keys, f);
    } else {
      assert s == [s[0]] + s[1..];
      GroupSumsTotal(s[1..], group, keys, f);
      GroupSumsCons(s[0], s[1..], group, keys, f);
    }
  }

  /** The position where a value first occurs. */
  function FirstIndex(s: seq<string>, x: string): (i: nat)
    requires x in s
    ensures i < |s| && s[i] == x
    ensures forall j :: 0 <= j < i ==> s[j] != x
  {
    if s[0] == x then 0 else 1 + FirstIndex(s[1..], x)
  }

  /** Rows appended after the first occurrence do not move it. */
  lemma {:induction false} FirstIndexPrefix(s: seq<string>, t: seq<string>, x: string)
    requires x in s
    ensures FirstIndex(s + t, x) == FirstIndex(s, x)
  {
    var i := FirstIndex(s, x);
    assert (s + t)[i] == x;
  }

  /** `unique()`: each value once, in order of first appearance. */
  function Unique(s: seq<string>): (r: seq<string>)
    ensures Distinct(r)
    ensures forall x :: x in r <==> x in s
    ensures forall i, j :: 0 <= i < j < |r| ==> r[i] in s && r[j] in s && FirstIndex(s, r[i]) < FirstIndex(s, r[j])
  {
    if s == [] then []
    else
      var init, last := s[..|s| - 1], s[|s| - 1];
      assert s == init + [last];
      var u := Unique(init);
      assert forall x :: x in s <==> x in init || x == last;
      forall x | x in init ensures FirstIndex(s, x) == FirstIndex(init, x) < |init| {
        FirstIndexPrefix(init, [last], x);
      }
      if last in u then u
      else
        assert FirstIndex(s, last) == |init|;
        u + [last]
  }

  // ---------------------------------------------------------------- ordering

  /** Rows ordered by a numeric column, largest first. */
  predicate SortedDesc<T>(s: seq<T>, key: T -> real)
  {
    forall i, j :: 0 <= i < j < |s| ==> key(s[i]) >= key(s[j])
  }

  /** Inserts a row after every row whose key is at least its own. */
  function InsertDesc<T(==)>(x: T, s: seq<T>, key: T -> real): (r: seq<T>)
    requires SortedDesc(s, key)
    ensures SortedDesc(r, key)
    ensures multiset(r) == multiset(s) + multiset{x}
    ensures forall y :: y in r ==> y == x || y in s
  {
    if s == [] then [x]
    else if key(s[0]) >= key(x) then
      var t := InsertDesc(x, s[1..], key);
      InsertPast(x, s, t, key);
      [s[0]] + t
    else
      InsertFront(x, s, key);
      [x] + s
  }

  /** Keeping the head in front of the insertion into the rest is an insertion into the whole. */
  lemma {:induction false} InsertPast<T>(x: T, s: seq<T>, t: seq<T>, key: T -> real)
    requires SortedDesc(s, key) && s != [] && key(s[0]) >= key(x)
    requires SortedDesc(t, key)
    requires multiset(t) == multiset(s[1..]) + multiset{x}
    requires forall y :: y in t ==> y == x || y in s[1..]
    ensures SortedDesc([s[0]] + t, key)
    ensures multiset([s[0]] + t) == multiset(s) + multiset{x}
    ensures forall y :: y in [s[0]] + t ==> y == x || y in s
  {
    assert s == [s[0]] + s[1..];
    forall j | 0 <= j < |t| ensures key(t[j]) <= key(s[0]) {
      assert t[j] in t;
      if t[j] != x {
        var k :| 0 <= k < |s| - 1 && s[1..][k] == t[j];
        assert s[1..][k] == s[k + 1];
      }
    }
    HeadAbove(s[0], t, key);
  }

  /** A row whose key is above the first key of a sorted table goes in front of it. */
  lemma {:induction false} InsertFront<T>(x: T, s: seq<T>, key: T -> real)
    requires SortedDesc(s, key) && s != [] && key(s[0]) < key(x)
    ensures SortedDesc([x] + s, key)
  {
    forall j | 0 <= j < |s| ensures key(s[j]) <= key(x) {
      assert key(s[j]) <= key(s[0]);
    }
    HeadAbove(x, s, key);
  }

  /** A row whose key is at least every key of a sorted table can go in front of it. */
  lemma {:induction false} HeadAbove<T>(h: T, t: seq<T>, key: T -> real)
    requires SortedDesc(t, key)
    requires forall j :: 0 <= j < |t| ==> key(t[j]) <= key(h)
    ensures SortedDesc([h] + t, key)
  {
    var r := [h] + t;
    forall i, j | 0 <= i < j < |r| ensures key(r[i]) >= key(r[j]) {
      assert r[j] == t[j - 1];
      if i > 0 {
        assert r[i] == t[i - 1];
      }
    }
  }

  /** A stable descending sort on one numeric column: rows with equal keys keep their table order. */
  function SortDesc<T(==)>(s: seq<T>, key: T -> real): (r: seq<T>)
    ensures SortedDesc(r, key)
    ensures multiset(r) == multiset(s)
    ensures |r| == |s|
  {
    if s == [] then []
    else
      var init, last := s[..|s| - 1], s[|s| - 1];
      assert s == init + [last];
      assert multiset(s) == multiset(init) + multiset{last};
      var sorted := SortDesc(init, key);
      InsertDesc(last, sorted, key)
  }

  /** The rows whose key equals c, in table order: the rows tied at one key value. */
  function Ties<T>(s: seq<T>, key: T -> real, c: real): seq<T>
  {
    if s == [] then [] else (if key(s[0]) == c then [s[0]] else []) + Ties(s[1..], key, c)
  }

  /** The mask "the key equals c". */
  function KeyIs<T>(key: T -> real, c: real): T -> bool
  {
    (y: T) => key(y) == c
  }

  /** The tied rows are the boolean mask `key == c` applied to the table. */
  lemma {:induction false} TiesIsFilter<T>(s: seq<T>, key: T -> real, c: real)
    ensures Ties(s, key, c) == Filter(s, KeyIs(key, c))
  {
    if s != [] {
      TiesIsFilter(s[1..], key, c);
    }
  }

  lemma {:induction false} TiesAppend<T>(a: seq<T>, b: seq<T>, key: T -> real, c: real)
    ensures Ties(a + b, key, c) == Ties(a, key, c) + Ties(b, key, c)
  {
    if a == [] {
      assert a + b == b;
    } else {
      assert (a + b)[0] == a[0];
      assert (a + b)[1..] == a[1..] + b;
      TiesAppend(a[1..], b, key, c);
      var h := if key(a[0]) == c then [a[0]] else [];
      var x, y := Ties(a[1..], key, c), Ties(b, key, c);
      assert Ties(a + b, key, c) == h + (x + y);
      assert h + (x + y) == (h + x) + y;
    }
  }

  /** A sorted table has no row tied at a key above its first key. */
  lemma {:induction false} TiesAbove<T>(s: seq<T>, key: T -> real, c: real)
    requires SortedDesc(s, key) && s != [] && key(s[0]) < c
    ensures Ties(s, key, c) == []
  {
    if |s| > 1 {
      assert SortedDesc(s[1..], key) && key(s[1..][0]) <= key(s[0]);
      TiesAbove(s[1..], key, c);
    }
  }

  /** An inserted row lands after every row with the same key. */
  lemma {:induction false} InsertDescTies<T>(x: T, s: seq<T>, key: T -> real, c: real)
    requires SortedDesc(s, key)
    ensures Ties(InsertDesc(x, s, key), key, c) == Ties(s, key, c) + Ties([x], key, c)
  {
    if s == [] {
      assert InsertDesc(x, s, key) == [x];
    } else if key(s[0]) >= key(x) {
      InsertDescTies(x, s[1..], key, c);
      InsertDescStep(x, s, key);
      var t := InsertDesc(x, s[1..], key);
      assert Ties([s[0]] + t, key, c) == Ties([s[0]], key, c) + Ties(t, key, c) by {
        TiesAppend([s[0]], t, key, c);
      }
    } else {
      InsertDescStep(x, s, key);
      TiesAppend([x], s, key, c);
      if key(x) == c {
        TiesAbove(s, key, c);
      }
    }
  }

  /** One step of the insertion: past a row with a key at least x's, or in front of the rest. */
  lemma {:induction false} InsertDescStep<T>(x: T, s: seq<T>, key: T -> real)
    requires SortedDesc(s, key) && s != []
    ensures key(s[0]) >= key(x) ==> InsertDesc(x, s, key) == [s[0]] + InsertDesc(x, s[1..], key)
    ensures key(s[0]) < key(x) ==> InsertDesc(x, s, key) == [x] + s
  {
  }

  /** The sort is stable: the rows tied at any one key keep their table order. */
  lemma {:induction false} SortDescStable<T>(s: seq<T>, key: T -> real, c: real)
    ensures Ties(SortDesc(s, key), key, c) == Ties(s, key, c)
  {
    if s != [] {
      var init, last := s[..|s| - 1], s[|s| - 1];
      assert s == init + [last];
      SortDescStable(init, key, c);
      InsertDescTies(last, SortDesc(init, key), key, c);
      TiesAppend(init, [last], key, c);
    }
  }

  function Min(a: nat, b: nat): nat
  {
    if a <= b then a else b
  }

  /**
    `nlargest(n, col)`: the n rows with the largest keys, largest first.  No row
    left out has a larger key than a row taken, and the rows taken together with
    the rows left out (`Remaining`) are exactly the table.
   */
  function Largest<T(==)>(s: seq<T>, n: nat, key: T -> real): (r: seq<T>)
    ensures |r| == Min(n, |s|)
    ensures SortedDesc(r, key)
    ensures multiset(r) + multiset(Remaining(s, n, key)) == multiset(s)
    ensures forall i, j :: 0 <= i < |r| && 0 <= j < |Remaining(s, n, key)| ==>
              key(Remaining(s, n, key)[j]) <= key(r[i])
  {
    var sorted := SortDesc(s, key);
    var m := Min(n, |s|);
    SortedSplit(sorted, m, key);
    sorted[..m]
  }

  /** Cutting a sorted table: both parts sorted, no row of the tail above one of the head. */
  lemma {:induction false} SortedSplit<T>(s: seq<T>, m: nat, key: T -> real)
    requires SortedDesc(s, key) && m <= |s|
    ensures SortedDesc(s[..m], key)
    ensures multiset(s[..m]) + multiset(s[m..]) == multiset(s)
    ensures forall i, j :: 0 <= i < m && 0 <= j < |s| - m ==> key(s[m..][j]) <= key(s[..m][i])
  {
    assert s == s[..m] + s[m..];
    forall i, j | 0 <= i < m && 0 <= j < |s| - m
      ensures key(s[m..][j]) <= key(s[..m][i])
    {
      assert s[m..][j] == s[m + j] && s[..m][i] == s[i];
    }
  }

  /** The rows `nlargest(n, col)` leaves out (`df.drop(top.index)`), in key order. */
  function Remaining<T(==)>(s: seq<T>, n: nat, key: T -> real): (r: seq<T>)
    ensures |r| == |s| - Min(n, |s|)
  {
    SortDesc(s, key)[Min(n, |s|)..]
  }

  /**
    `keep='first'`: the rows tied at any one key are split by `nlargest` into a taken
    prefix and a left-out rest, both in table order, so among tied rows the earliest
    ones are taken.
   */
  lemma {:induction false} LargestKeepsFirst<T>(s: seq<T>, n: nat, key: T -> real, c: real)
    ensures Ties(s, key, c) == Ties(Largest(s, n, key), key, c) + Ties(Remaining(s, n, key), key, c)
  {
    var sorted := SortDesc(s, key);
    var m := Min(n, |s|);
    assert sorted == sorted[..m] + sorted[m..];
    TiesAppend(sorted[..m], sorted[m..], key, c);
    SortDescStable(s, key, c);
  }

  /** A prefix holds no row more often than the whole. */
  lemma {:induction false} PrefixIncluded<T>(s: seq<T>, k: nat)
    requires k <= |s|
    ensures multiset(s[..k]) <= multiset(s)
  {
    assert s == s[..k] + s[k..];
  }

  /** The rows `nlargest` takes and the rows it leaves out carry the table's sum. */
  lemma {:induction false} LargestSplitsSum<T>(s: seq<T>, n: nat, key: T -> real, f: T -> real)
    ensures SumBy(Largest(s, n, key), f) + SumBy(Remaining(s, n, key), f) == SumBy(s, f)
  {
    var top, rest := Largest(s, n, key), Remaining(s, n, key);
    SumByAppend(top, rest, f);
    assert multiset(top + rest) == multiset(s);
    SumByPermutation(top + rest, s, f);
  }
}
