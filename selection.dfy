/**
  The "Top Economic Performers" ranking: the rows of the loaded table that have
  a GDP per capita (`dropna` removes only NaN, so an infinite value stays),
  the 15 largest first (`nlargest(15, 'GDP_per_capita')`).  An infinite value
  from a zero population ranks above every finite one.
 */
module Selection {
  import opened Floats
  import Tables
  import opened Loader

  const TopCount: nat := 15

  predicate HasPerCapita(r: Row) { !r.perCapita.NaN? }
  predicate PosInf(r: Row) { r.perCapita == Inf(true) }
  predicate NegInf(r: Row) { r.perCapita == Inf(false) }
  predicate Finite(r: Row) { r.perCapita.Value? }
  function FiniteKey(r: Row): real { if r.perCapita.Value? then r.perCapita.v else 0.0 }

  /** `a >= b` for two quotients that are not NaN, with -inf below and +inf above every real. */
  predicate AtLeast(a: Quotient, b: Quotient)
  {
    match (a, b)
    case (Value(x), Value(y)) => x >= y
    case (Inf(pa), _) => pa || b == Inf(false)
    case (_, Inf(pb)) => !pb
    case _ => false
  }

  /** The rows with a per-capita value are the +inf, the finite and the -inf ones. */
  lemma {:induction false} SplitByRank(rows: seq<Row>)
    ensures |Tables.Filter(rows, PosInf)| + |Tables.Filter(rows, Finite)| + |Tables.Filter(rows, NegInf)|
         == |Tables.Filter(rows, HasPerCapita)|
  {
    if rows != [] {
      SplitByRank(rows[1..]);
    }
  }

  /** The same split, row by row: every row with a value is in exactly one of the three. */
  lemma {:induction false} SplitByRankRows(rows: seq<Row>)
    ensures multiset(Tables.Filter(rows, PosInf)) + multiset(Tables.Filter(rows, Finite)) + multiset(Tables.Filter(rows, NegInf))
         == multiset(Tables.Filter(rows, HasPerCapita))
  {
    if rows != [] {
      SplitByRankRows(rows[1..]);
      Tables.FilterCons(rows, PosInf);
      Tables.FilterCons(rows, Finite);
      Tables.FilterCons(rows, NegInf);
      Tables.FilterCons(rows, HasPerCapita);
    }
  }

  /** `df.dropna(subset=['GDP_per_capita']).nlargest(15, 'GDP_per_capita')` */
  function TopPerCapita(rows: seq<Row>): (r: seq<Row>)
    ensures |r| == Tables.Min(TopCount, |Tables.Filter(rows, HasPerCapita)|)
    ensures forall i :: 0 <= i < |r| ==> r[i] in rows && HasPerCapita(r[i])
    ensures multiset(r) <= multiset(Tables.Filter(rows, HasPerCapita))
    ensures forall i, j :: 0 <= i < j < |r| ==> AtLeast(r[i].perCapita, r[j].perCapita)
    ensures forall x :: x in rows && HasPerCapita(x) && x !in r ==>
              forall i :: 0 <= i < |r| ==> AtLeast(r[i].perCapita, x.perCapita)
  {
    var top, mid, bot := Tables.Filter(rows, PosInf), Tables.Filter(rows, Finite), Tables.Filter(rows, NegInf);
    var a := top[..Tables.Min(TopCount, |top|)];
    var b := Tables.Largest(mid, TopCount - |a|, FiniteKey);
    var c := bot[..Tables.Min(TopCount - |a| - |b|, |bot|)];
    PartsSize(rows, top, mid, bot, a, b, c);
    PartsMembers(rows, top, mid, bot, a, b, c);
    PartsTaken(rows, top, mid, bot, a, b, c);
    PartsOrdered(rows, top, mid, bot, a, b, c);
    Dominated(rows, top, mid, bot, a, b, c);
    a + b + c
  }

  /** The list holds 15 rows, or every row with a value when there are fewer. */
  lemma {:induction false} PartsSize(rows: seq<Row>, top: seq<Row>, mid: seq<Row>, bot: seq<Row>, a: seq<Row>, b: seq<Row>, c: seq<Row>)
    requires top == Tables.Filter(rows, PosInf) && mid == Tables.Filter(rows, Finite) && bot == Tables.Filter(rows, NegInf)
    requires a == top[..Tables.Min(TopCount, |top|)]
    requires b == Tables.Largest(mid, TopCount - |a|, FiniteKey)
    requires c == bot[..Tables.Min(TopCount - |a| - |b|, |bot|)]
    ensures |a + b + c| == Tables.Min(TopCount, |Tables.Filter(rows, HasPerCapita)|)
  {
    SplitByRank(rows);
  }

  /** Every row taken is a row of the table with a per-capita value. */
  lemma {:induction false} PartsMembers(rows: seq<Row>, top: seq<Row>, mid: seq<Row>, bot: seq<Row>, a: seq<Row>, b: seq<Row>, c: seq<Row>)
    requires top == Tables.Filter(rows, PosInf) && mid == Tables.Filter(rows, Finite) && bot == Tables.Filter(rows, NegInf)
    requires a == top[..Tables.Min(TopCount, |top|)]
    requires b == Tables.Largest(mid, TopCount - |a|, FiniteKey)
    requires c == bot[..Tables.Min(TopCount - |a| - |b|, |bot|)]
    ensures forall i :: 0 <= i < |a + b + c| ==> (a + b + c)[i] in rows && HasPerCapita((a + b + c)[i])
  {
    PrefixMembers(rows, PosInf, top, |a|);
    LargestMembers(rows, mid, TopCount - |a|);
    PrefixMembers(rows, NegInf, bot, |c|);
    ConcatMembers(rows, a, b, c);
  }

  /** The first rows of one rank class are rows of the table with a per-capita value. */
  lemma {:induction false} PrefixMembers(rows: seq<Row>, p: Row -> bool, whole: seq<Row>, n: nat)
    requires whole == Tables.Filter(rows, p) && n <= |whole|
    requires forall x :: p(x) ==> HasPerCapita(x)
    ensures forall x :: x in whole[..n] ==> x in rows && HasPerCapita(x)
  {
    assert whole == whole[..n] + whole[n..];
    PartMembers(rows, p, whole[..n], whole);
  }

  /** The largest finite rows are rows of the table with a per-capita value. */
  lemma {:induction false} LargestMembers(rows: seq<Row>, mid: seq<Row>, n: nat)
    requires mid == Tables.Filter(rows, Finite)
    ensures forall x :: x in Tables.Largest(mid, n, FiniteKey) ==> x in rows && HasPerCapita(x)
  {
    var b := Tables.Largest(mid, n, FiniteKey);
    Tables.SameMembers(mid, b + Tables.Remaining(mid, n, FiniteKey));
    PartMembers(rows, Finite, b, mid);
  }

  /** Three lists of table rows with a value, joined, are still such rows. */
  lemma {:induction false} ConcatMembers(rows: seq<Row>, a: seq<Row>, b: seq<Row>, c: seq<Row>)
    requires forall x :: x in a ==> x in rows && HasPerCapita(x)
    requires forall x :: x in b ==> x in rows && HasPerCapita(x)
    requires forall x :: x in c ==> x in rows && HasPerCapita(x)
    ensures forall i :: 0 <= i < |a + b + c| ==> (a + b + c)[i] in rows && HasPerCapita((a + b + c)[i])
  {
    var r := a + b + c;
    forall i | 0 <= i < |r| ensures r[i] in a || r[i] in b || r[i] in c {
      if i < |a| {
        assert r[i] == a[i];
      } else if i < |a| + |b| {
        assert r[i] == b[i - |a|];
      } else {
        assert r[i] == c[i - |a| - |b|];
      }
    }
  }

  /** Rows drawn from one rank class are rows of the table with a per-capita value. */
  lemma {:induction false} PartMembers(rows: seq<Row>, p: Row -> bool, part: seq<Row>, whole: seq<Row>)
    requires whole == Tables.Filter(rows, p)
    requires forall x :: x in part ==> x in whole
    requires forall x :: p(x) ==> HasPerCapita(x)
    ensures forall x :: x in part ==> x in rows && HasPerCapita(x)
  {
    forall x | x in part ensures x in rows && HasPerCapita(x) {
      Tables.InFilter(rows, p, x);
    }
  }

  /** Each row with a value is taken at most as often as it occurs. */
  lemma {:induction false} PartsTaken(rows: seq<Row>, top: seq<Row>, mid: seq<Row>, bot: seq<Row>, a: seq<Row>, b: seq<Row>, c: seq<Row>)
    requires top == Tables.Filter(rows, PosInf) && mid == Tables.Filter(rows, Finite) && bot == Tables.Filter(rows, NegInf)
    requires a == top[..Tables.Min(TopCount, |top|)]
    requires b == Tables.Largest(mid, TopCount - |a|, FiniteKey)
    requires c == bot[..Tables.Min(TopCount - |a| - |b|, |bot|)]
    ensures multiset(a + b + c) <= multiset(Tables.Filter(rows, HasPerCapita))
  {
    SplitByRankRows(rows);
    Tables.PrefixIncluded(top, |a|);
    Tables.PrefixIncluded(bot, |c|);
    assert multiset(b) <= multiset(mid);
    assert multiset(a + b + c) == multiset(a) + multiset(b) + multiset(c);
  }

  /** The list is in ranking order. */
  lemma {:induction false} PartsOrdered(rows: seq<Row>, top: seq<Row>, mid: seq<Row>, bot: seq<Row>, a: seq<Row>, b: seq<Row>, c: seq<Row>)
    requires top == Tables.Filter(rows, PosInf) && mid == Tables.Filter(rows, Finite) && bot == Tables.Filter(rows, NegInf)
    requires a == top[..Tables.Min(TopCount, |top|)]
    requires b == Tables.Largest(mid, TopCount - |a|, FiniteKey)
    requires c == bot[..Tables.Min(TopCount - |a| - |b|, |bot|)]
    ensures forall i, j :: 0 <= i < j < |a + b + c| ==> AtLeast((a + b + c)[i].perCapita, (a + b + c)[j].perCapita)
  {
    Tables.SameMembers(mid, b + Tables.Remaining(mid, TopCount - |a|, FiniteKey));
    forall i | 0 <= i < |b| ensures Finite(b[i]) {
      Tables.InFilter(rows, Finite, b[i]);
    }
    RankedParts(a, b, c);
  }

  /** +inf rows, then finite rows by value, then -inf rows, are in ranking order. */
  lemma {:induction false} RankedParts(a: seq<Row>, b: seq<Row>, c: seq<Row>)
    requires forall i :: 0 <= i < |a| ==> PosInf(a[i])
    requires forall i :: 0 <= i < |b| ==> Finite(b[i])
    requires Tables.SortedDesc(b, FiniteKey)
    requires forall i :: 0 <= i < |c| ==> NegInf(c[i])
    ensures forall i, j :: 0 <= i < j < |a + b + c| ==> AtLeast((a + b + c)[i].perCapita, (a + b + c)[j].perCapita)
  {
    var r := a + b + c;
    forall i, j | 0 <= i < j < |r| ensures AtLeast(r[i].perCapita, r[j].perCapita) {
      if |a| <= i < j < |a| + |b| {
        assert FiniteKey(b[i - |a|]) >= FiniteKey(b[j - |a|]);
      }
    }
  }

  /** A row with a per-capita value that is not taken ranks no higher than any row taken. */
  lemma {:induction false} Dominated(rows: seq<Row>, top: seq<Row>, mid: seq<Row>, bot: seq<Row>, a: seq<Row>, b: seq<Row>, c: seq<Row>)
    requires top == Tables.Filter(rows, PosInf) && mid == Tables.Filter(rows, Finite) && bot == Tables.Filter(rows, NegInf)
    requires a == top[..Tables.Min(TopCount, |top|)]
    requires b == Tables.Largest(mid, TopCount - |a|, FiniteKey)
    requires c == bot[..Tables.Min(TopCount - |a| - |b|, |bot|)]
    ensures forall x :: x in rows && HasPerCapita(x) && x !in a + b + c ==>
              forall i :: 0 <= i < |a + b + c| ==> AtLeast((a + b + c)[i].perCapita, x.perCapita)
  {
    forall x | x in rows && HasPerCapita(x) && x !in a + b + c
      ensures forall i :: 0 <= i < |a + b + c| ==> AtLeast((a + b + c)[i].perCapita, x.perCapita)
    {
      var k :| 0 <= k < |rows| && rows[k] == x;
      DominatedOne(rows, k, top, mid, bot, a, b, c);
    }
  }

  lemma {:induction false} DominatedOne(rows: seq<Row>, k: nat, top: seq<Row>, mid: seq<Row>, bot: seq<Row>, a: seq<Row>, b: seq<Row>, c: seq<Row>)
    requires k < |rows| && HasPerCapita(rows[k])
    requires top == Tables.Filter(rows, PosInf) && mid == Tables.Filter(rows, Finite) && bot == Tables.Filter(rows, NegInf)
    requires a == top[..Tables.Min(TopCount, |top|)]
    requires b == Tables.Largest(mid, TopCount - |a|, FiniteKey)
    requires c == bot[..Tables.Min(TopCount - |a| - |b|, |bot|)]
    requires rows[k] !in a + b + c
    ensures forall i :: 0 <= i < |a + b + c| ==> AtLeast((a + b + c)[i].perCapita, rows[k].perCapita)
  {
    var x := rows[k];
    if PosInf(x) {
      DominatedPosInf(rows, k, top, mid, bot, a, b, c);
    } else if Finite(x) {
      DominatedFiniteRow(rows, k, top, mid, bot, a, b, c);
    } else {
      BelowEverything(rows, top, mid, bot, a, b, c, x);
    }
  }

  /** A +inf row left out: the 15 rows taken are all +inf. */
  lemma {:induction false} DominatedPosInf(rows: seq<Row>, k: nat, top: seq<Row>, mid: seq<Row>, bot: seq<Row>, a: seq<Row>, b: seq<Row>, c: seq<Row>)
    requires k < |rows| && PosInf(rows[k])
    requires top == Tables.Filter(rows, PosInf) && mid == Tables.Filter(rows, Finite) && bot == Tables.Filter(rows, NegInf)
    requires a == top[..Tables.Min(TopCount, |top|)]
    requires b == Tables.Largest(mid, TopCount - |a|, FiniteKey)
    requires c == bot[..Tables.Min(TopCount - |a| - |b|, |bot|)]
    requires rows[k] !in a + b + c
    ensures forall i :: 0 <= i < |a + b + c| ==> AtLeast((a + b + c)[i].perCapita, rows[k].perCapita)
  {
    OverflowedTop(top, a, rows[k]);
    assert |b| == 0 && |c| == 0;
    assert a + b + c == a;
  }

  /** A finite row left out. */
  lemma {:induction false} DominatedFiniteRow(rows: seq<Row>, k: nat, top: seq<Row>, mid: seq<Row>, bot: seq<Row>, a: seq<Row>, b: seq<Row>, c: seq<Row>)
    requires k < |rows| && Finite(rows[k])
    requires top == Tables.Filter(rows, PosInf) && mid == Tables.Filter(rows, Finite) && bot == Tables.Filter(rows, NegInf)
    requires a == top[..Tables.Min(TopCount, |top|)]
    requires b == Tables.Largest(mid, TopCount - |a|, FiniteKey)
    requires c == bot[..Tables.Min(TopCount - |a| - |b|, |bot|)]
    requires rows[k] !in a + b + c
    ensures forall i :: 0 <= i < |a + b + c| ==> AtLeast((a + b + c)[i].perCapita, rows[k].perCapita)
  {
    assert forall i :: 0 <= i < |a| ==> PosInf(a[i]) by {
      forall i | 0 <= i < |a| ensures PosInf(a[i]) {
        assert a[i] == top[i];
      }
    }
    assert rows[k] in mid;
    DominatedFinite(mid, a, b, c, rows[k]);
  }

  /** Every row taken has a per-capita value, so it ranks at least as high as -inf. */
  lemma {:induction false} BelowEverything(rows: seq<Row>, top: seq<Row>, mid: seq<Row>, bot: seq<Row>, a: seq<Row>, b: seq<Row>, c: seq<Row>, x: Row)
    requires top == Tables.Filter(rows, PosInf) && mid == Tables.Filter(rows, Finite) && bot == Tables.Filter(rows, NegInf)
    requires a == top[..Tables.Min(TopCount, |top|)]
    requires b == Tables.Largest(mid, TopCount - |a|, FiniteKey)
    requires c == bot[..Tables.Min(TopCount - |a| - |b|, |bot|)]
    requires x.perCapita == Inf(false)
    ensures forall i :: 0 <= i < |a + b + c| ==> AtLeast((a + b + c)[i].perCapita, x.perCapita)
  {
    var r := a + b + c;
    Tables.SameMembers(mid, b + Tables.Remaining(mid, TopCount - |a|, FiniteKey));
    forall i | 0 <= i < |r| ensures AtLeast(r[i].perCapita, x.perCapita) {
      if i < |a| {
        assert PosInf(top[i]);
      } else if i < |a| + |b| {
        Tables.InFilter(rows, Finite, b[i - |a|]);
      } else {
        assert NegInf(bot[i - |a| - |b|]);
      }
    }
  }

  /** A +inf row left out means the first 15 +inf rows filled the whole list. */
  lemma {:induction false} OverflowedTop(top: seq<Row>, a: seq<Row>, x: Row)
    requires forall i :: 0 <= i < |top| ==> PosInf(top[i])
    requires a == top[..Tables.Min(TopCount, |top|)]
    requires x in top && x !in a
    ensures |a| == TopCount
    ensures forall i :: 0 <= i < |a| ==> AtLeast(a[i].perCapita, x.perCapita)
  {
  }

  /** A finite row left out is below every finite row taken, and no -inf row was taken. */
  lemma {:induction false} DominatedFinite(mid: seq<Row>, a: seq<Row>, b: seq<Row>, c: seq<Row>, x: Row)
    requires |a| <= TopCount
    requires forall i :: 0 <= i < |a| ==> PosInf(a[i])
    requires forall i :: 0 <= i < |mid| ==> Finite(mid[i])
    requires b == Tables.Largest(mid, TopCount - |a|, FiniteKey)
    requires |c| <= TopCount - |a| - |b|
    requires x in mid && x !in a + b + c
    ensures c == []
    ensures forall i :: 0 <= i < |a + b + c| ==> AtLeast((a + b + c)[i].perCapita, x.perCapita)
  {
    var n := TopCount - |a|;
    var rest := Tables.Remaining(mid, n, FiniteKey);
    Tables.SameMembers(mid, b + rest);
    assert x in b + rest;
    var j :| 0 <= j < |rest| && rest[j] == x;
    assert |b| == n;
    assert |c| == 0;
    var r := a + b + c;
    forall i | 0 <= i < |r| ensures AtLeast(r[i].perCapita, x.perCapita) {
      if i >= |a| {
        assert FiniteKey(rest[j]) <= FiniteKey(b[i - |a|]);
        assert Finite(b[i - |a|]) by {
          assert b[i - |a|] in mid;
        }
      }
    }
  }
}
