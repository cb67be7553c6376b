/** The result table: its rows, the descending order on Return (%) that
    `sort_values(ascending=False)` produces, and the top-N and bottom-N views. */
module ReturnsTable {
  import opened Quotes

  /** One row: Symbol, Previous Close, Target Price, Return (%). */
  datatype Row = Row(symbol: string, prevClose: real, targetPrice: real, ret: Ret)

  /** `a` may stand above `b` in a descending sort: +inf first, then finite
      values from large to small, then -inf, and NaN last (pandas' default
      `na_position='last'`). */
  predicate Ranks(a: Ret, b: Ret) {
    match (a, b)
    case (_, NaN) => true
    case (NaN, _) => false
    case (PosInf, _) => true
    case (_, PosInf) => false
    case (Fin(x), Fin(y)) => x >= y
    case (_, NegInf) => true
    case (NegInf, _) => false
  }

  /** `Ranks` is a total preorder, so a descending order exists for every table. */
  lemma RanksTotalPreorder(a: Ret, b: Ret, c: Ret)
    ensures Ranks(a, a)
    ensures Ranks(a, b) || Ranks(b, a)
    ensures Ranks(a, b) && Ranks(b, c) ==> Ranks(a, c)
  {
  }

  /** Return (%) does not increase from any row to the next. */
  predicate SortedDesc(rows: seq<Row>) {
    forall i :: 0 <= i < |rows| - 1 ==> Ranks(rows[i].ret, rows[i + 1].ret)
  }

  /** In a table sorted on adjacent rows, every earlier row ranks at least every later row. */
  lemma {:induction false} SortedDescAllPairs(rows: seq<Row>)
    requires SortedDesc(rows)
    ensures forall i, j :: 0 <= i <= j < |rows| ==> Ranks(rows[i].ret, rows[j].ret)
  {
    if |rows| > 1 {
      SortedDescAllPairs(rows[1..]);
      forall i, j | 0 <= i <= j < |rows| ensures Ranks(rows[i].ret, rows[j].ret) {
        if i == j {
          RanksTotalPreorder(rows[i].ret, rows[i].ret, rows[i].ret);
        } else if i > 0 {
          assert rows[i] == rows[1..][i - 1] && rows[j] == rows[1..][j - 1];
        } else {
          assert rows[1] == rows[1..][0] && rows[j] == rows[1..][j - 1];
          RanksTotalPreorder(rows[0].ret, rows[1].ret, rows[j].ret);
        }
      }
    }
  }

  /** Places `r` into a table already in descending order. */
  function Insert(r: Row, rows: seq<Row>): (out: seq<Row>)
    requires SortedDesc(rows)
    ensures SortedDesc(out)
    ensures multiset(out) == multiset(rows) + multiset{r}
    ensures out[0] == r || (rows != [] && out[0] == rows[0])
  {
    if rows == [] then [r]
    else if Ranks(r.ret, rows[0].ret) then [r] + rows
    else
      assert rows == [rows[0]] + rows[1..];
      RanksTotalPreorder(r.ret, rows[0].ret, rows[0].ret);
      [rows[0]] + Insert(r, rows[1..])
  }

  /** `sort_values('Return (%)', ascending=False)`: a descending permutation
      of the rows. pandas' default quicksort is not stable, so nothing is
      promised about the order of rows with equal returns. */
  function SortByReturn(rows: seq<Row>): (out: seq<Row>)
    ensures SortedDesc(out)
    ensures multiset(out) == multiset(rows)
    ensures |out| == |rows|
  {
    if rows == [] then []
    else
      assert rows == [rows[0]] + rows[1..];
      Insert(rows[0], SortByReturn(rows[1..]))
  }

  function Min(a: nat, b: nat): nat {
    if a <= b then a else b
  }

  /** `df.head(n)`: the first `n` rows, or all of them when there are fewer
      (the top performers view uses `n` = 10). */
  function TopView(table: seq<Row>, n: nat): (v: seq<Row>)
    ensures |v| == Min(n, |table|)
    ensures forall k :: 0 <= k < |v| ==> v[k] == table[k]
  {
    table[..Min(n, |table|)]
  }

  /** `df.tail(n).iloc[::-1]`: the last `n` rows, from the last row backwards
      (the bottom performers view uses `n` = 10). */
  function BottomView(table: seq<Row>, n: nat): (v: seq<Row>)
    ensures |v| == Min(n, |table|)
    ensures forall k :: 0 <= k < |v| ==> v[k] == table[|table| - 1 - k]
  {
    var m := Min(n, |table|);
    seq(m, k requires 0 <= k < m => table[|table| - 1 - k])
  }

  /** On a sorted table, every row of the top view ranks at least every row
      left out of it. */
  lemma TopViewHoldsBest(table: seq<Row>, n: nat)
    requires SortedDesc(table)
    ensures forall k, j :: 0 <= k < |TopView(table, n)| <= j < |table| ==>
      Ranks(TopView(table, n)[k].ret, table[j].ret)
  {
    SortedDescAllPairs(table);
  }

  /** On a sorted table, the bottom view runs from the worst return upwards,
      and every row left out of it ranks at least every row in it. */
  lemma BottomViewHoldsWorst(table: seq<Row>, n: nat)
    requires SortedDesc(table)
    ensures var v := BottomView(table, n);
      forall k :: 0 <= k < |v| - 1 ==> Ranks(v[k + 1].ret, v[k].ret)
    ensures var v := BottomView(table, n);
      forall k, j :: 0 <= k < |v| && 0 <= j < |table| - |v| ==> Ranks(table[j].ret, v[k].ret)
  {
    SortedDescAllPairs(table);
  }
}
