/** `calculate_stock_returns`: the weekend guard, the per-symbol loop with
    skip-on-failure, progress reporting, and the final descending sort. */
module Calculator {
  import opened Calendar
  import opened Quotes
  import opened ReturnsTable

  /** One call to the price-history provider: hourly bars of `symbol` from
      day `start` up to, but excluding, day `end`. */
  datatype Request = Request(symbol: string, start: int, end: int)

  /** Why a symbol produced no row; the `except` clause swallows each of these. */
  datatype Skip =
    | EndDateOverflow  // `target_date + timedelta(days=1)` passes date.max
    | FetchFailed      // the provider raised
    | NoTargetBar      // no target-day bar at the comparison time
    | NoPreviousBar    // the comparison day has no bar

  /** Per-symbol result: a row, or the reason the symbol was skipped. */
  datatype Attempt = Priced(row: Row) | Skipped(reason: Skip)

  /** Everything one run holds fixed across symbols. The provider stands for
      the network fetch and `round2` for `round(x, 2)`; both are left abstract. */
  datatype Session = Session(
    target: int,
    prev: int,
    time: int,
    provider: Request -> Option<seq<Bar>>,
    round2: real -> real)

  /** The request made for `symbol`, when the end date can be formed at all. */
  function RequestFor(symbol: string, s: Session): Option<Request> {
    if s.target + 1 > MaxDay then None else Some(Request(symbol, s.prev, s.target + 1))
  }

  /** streamlit_price_change_from_close.py:63-76 for one symbol, given what
      the provider returned: the target price is read first, then the
      previous close, then the return. */
  function PriceBars(symbol: string, fetched: Option<seq<Bar>>, s: Session): (a: Attempt)
    ensures a.Priced? ==> a.row.symbol == symbol
    ensures a.Priced? <==>
      fetched.Some? && TargetPrice(fetched.value, s.target, s.time).Some? &&
      PrevClose(fetched.value, s.prev).Some?
    ensures fetched.Some? && TargetPrice(fetched.value, s.target, s.time).None? ==>
      a == Skipped(NoTargetBar)
  {
    match fetched
    case None => Skipped(FetchFailed)
    case Some(bars) =>
      match TargetPrice(bars, s.target, s.time)
      case None => Skipped(NoTargetBar)
      case Some(price) =>
        match PrevClose(bars, s.prev)
        case None => Skipped(NoPreviousBar)
        case Some(close) =>
          Priced(Row(symbol, s.round2(close), s.round2(price),
                     RoundRet(s.round2, ReturnPct(close, price))))
  }

  /** The whole body of the `try` for one symbol. */
  function Outcome(symbol: string, s: Session): Attempt {
    match RequestFor(symbol, s)
    case None => Skipped(EndDateOverflow)
    case Some(req) => PriceBars(symbol, s.provider(req), s)
  }

  /** A symbol yields a row exactly when its bars hold a target-day bar at the
      comparison time and at least one comparison-day bar; that row carries the
      rounded closes of the first such target bar and the last comparison-day
      bar, and the rounded return between them. */
  lemma OutcomeSelectsBars(symbol: string, s: Session)
    ensures Outcome(symbol, s).Priced? <==>
      RequestFor(symbol, s).Some? &&
      var fetched := s.provider(RequestFor(symbol, s).value);
      && fetched.Some?
      && (exists i :: 0 <= i < |fetched.value| && At(fetched.value[i], s.target, s.time))
      && (exists i :: 0 <= i < |fetched.value| && fetched.value[i].day == s.prev)
    ensures Outcome(symbol, s).Priced? ==>
      var bars := s.provider(RequestFor(symbol, s).value).value;
      exists i, k ::
        && 0 <= i < |bars| && At(bars[i], s.target, s.time)
        && (forall j :: 0 <= j < i ==> !At(bars[j], s.target, s.time))
        && 0 <= k < |bars| && bars[k].day == s.prev
        && (forall j :: k < j < |bars| ==> bars[j].day != s.prev)
        && Outcome(symbol, s).row == Row(symbol, s.round2(bars[k].close), s.round2(bars[i].close),
                                         RoundRet(s.round2, ReturnPct(bars[k].close, bars[i].close)))
  {
    if RequestFor(symbol, s).Some? {
      var fetched := s.provider(RequestFor(symbol, s).value);
      if fetched.Some? {
        TargetPriceIsFirstMatch(fetched.value, s.target, s.time);
        PrevCloseIsLastOfDay(fetched.value, s.prev);
      }
    }
  }

  /** The rows the loop has appended after visiting `symbols`, in visiting order. */
  function Collected(symbols: seq<string>, s: Session): seq<Row>
  {
    if symbols == [] then []
    else
      var last := symbols[|symbols| - 1];
      Collected(symbols[..|symbols| - 1], s) +
        match Outcome(last, s)
        case Priced(row) => [row]
        case Skipped(_) => []
  }

  /** One more loop iteration appends the row of the next symbol, if any. */
  lemma CollectedStep(symbols: seq<string>, idx: nat, s: Session)
    requires idx < |symbols|
    ensures Collected(symbols[..idx + 1], s) ==
      Collected(symbols[..idx], s) +
        match Outcome(symbols[idx], s)
        case Priced(row) => [row]
        case Skipped(_) => []
  {
    assert symbols[..idx + 1][..idx] == symbols[..idx];
  }

  /** Skip-on-failure: every symbol that can be priced contributes its row,
      whatever happened to the symbols before it; every row comes from a
      symbol of the input; and there are never more rows than symbols. */
  lemma {:induction false} CollectedRows(symbols: seq<string>, s: Session)
    ensures |Collected(symbols, s)| <= |symbols|
    ensures forall i :: 0 <= i < |symbols| && Outcome(symbols[i], s).Priced? ==>
      Outcome(symbols[i], s).row in Collected(symbols, s)
    ensures forall r :: r in Collected(symbols, s) ==>
      exists i :: 0 <= i < |symbols| && Outcome(symbols[i], s) == Priced(r)
  {
    if symbols != [] {
      var n := |symbols|;
      var init := symbols[..n - 1];
      CollectedRows(init, s);
      forall i | 0 <= i < n && Outcome(symbols[i], s).Priced?
        ensures Outcome(symbols[i], s).row in Collected(symbols, s)
      {
        if i < n - 1 { assert symbols[i] == init[i]; }
      }
      forall r | r in Collected(symbols, s)
        ensures exists i :: 0 <= i < n && Outcome(symbols[i], s) == Priced(r)
      {
        if r in Collected(init, s) {
          var i :| 0 <= i < |init| && Outcome(init[i], s) == Priced(r);
          assert symbols[i] == init[i];
        } else {
          assert Outcome(symbols[n - 1], s) == Priced(r);
        }
      }
    }
  }

  /** No rows at all exactly when every symbol was skipped (in particular for
      an empty symbol list). */
  lemma {:induction false} CollectedEmpty(symbols: seq<string>, s: Session)
    ensures Collected(symbols, s) == [] <==>
      forall i :: 0 <= i < |symbols| ==> Outcome(symbols[i], s).Skipped?
  {
    CollectedRows(symbols, s);
    if Collected(symbols, s) != [] {
      assert Collected(symbols, s)[0] in Collected(symbols, s);
    }
  }

  /** The input positions whose symbol yields a row, in increasing order. */
  function PricedIndices(symbols: seq<string>, s: Session): seq<nat>
  {
    if symbols == [] then []
    else
      var n := |symbols| - 1;
      PricedIndices(symbols[..n], s) + if Outcome(symbols[n], s).Priced? then [n] else []
  }

  /** The loop appends exactly one row per priced input position, in input
      order: the k-th row is the row of the k-th priced position, and every
      priced position appears among them. */
  lemma {:induction false} CollectedInInputOrder(symbols: seq<string>, s: Session)
    ensures var m := PricedIndices(symbols, s);
      && |m| == |Collected(symbols, s)|
      && (forall k :: 0 <= k < |m| ==>
            m[k] < |symbols| && Outcome(symbols[m[k]], s) == Priced(Collected(symbols, s)[k]))
      && (forall k, l :: 0 <= k < l < |m| ==> m[k] < m[l])
      && (forall i :: 0 <= i < |symbols| && Outcome(symbols[i], s).Priced? ==> i in m)
  {
    if symbols != [] {
      var n := |symbols| - 1;
      var init := symbols[..n];
      CollectedInInputOrder(init, s);
      var m0 := PricedIndices(init, s);
      var m := PricedIndices(symbols, s);
      assert forall k :: 0 <= k < |m0| ==> m[k] == m0[k] && symbols[m0[k]] == init[m0[k]];
      forall i | 0 <= i < |symbols| && Outcome(symbols[i], s).Priced? ensures i in m {
        if i < n { assert symbols[i] == init[i]; }
      }
    }
  }

  /** How many input positions yield exactly the row `r`. */
  function Occurrences(symbols: seq<string>, s: Session, r: Row): nat {
    |set i | 0 <= i < |symbols| && Outcome(symbols[i], s) == Priced(r)|
  }

  /** One more input position adds one occurrence of its own row. */
  lemma OccurrencesStep(symbols: seq<string>, s: Session, r: Row)
    requires symbols != []
    ensures var n := |symbols| - 1;
      Occurrences(symbols, s, r) ==
        Occurrences(symbols[..n], s, r) + if Outcome(symbols[n], s) == Priced(r) then 1 else 0
  {
    var n := |symbols| - 1;
    var init := symbols[..n];
    var before := set i | 0 <= i < |init| && Outcome(init[i], s) == Priced(r);
    var after := set i | 0 <= i < |symbols| && Outcome(symbols[i], s) == Priced(r);
    assert forall i :: 0 <= i < n ==> init[i] == symbols[i];
    if Outcome(symbols[n], s) == Priced(r) {
      assert after == before + {n};
    } else {
      assert after == before;
    }
  }

  /** Each row occurs among the collected rows exactly as often as input
      positions yield it: nothing is merged, dropped or duplicated. */
  lemma {:induction false} CollectedCounts(symbols: seq<string>, s: Session)
    ensures forall r :: multiset(Collected(symbols, s))[r] == Occurrences(symbols, s, r)
  {
    if symbols != [] {
      var n := |symbols| - 1;
      var init := symbols[..n];
      CollectedCounts(init, s);
      var tail := match Outcome(symbols[n], s) case Priced(row) => [row] case Skipped(_) => [];
      assert Collected(symbols, s) == Collected(init, s) + tail;
      assert multiset(Collected(symbols, s)) == multiset(Collected(init, s)) + multiset(tail);
      forall r ensures multiset(Collected(symbols, s))[r] == Occurrences(symbols, s, r) {
        OccurrencesStep(symbols, s, r);
      }
    }
  }

  /** The loop does not de-duplicate: a symbol entered twice and priced gives
      its row twice. (The provider is a function of the request, so both
      positions get the same answer.) */
  lemma RepeatedSymbolGivesTwoRows(symbols: seq<string>, s: Session, i: nat, j: nat)
    requires i < j < |symbols| && symbols[i] == symbols[j]
    requires Outcome(symbols[i], s).Priced?
    ensures multiset(Collected(symbols, s))[Outcome(symbols[i], s).row] >= 2
  {
    var r := Outcome(symbols[i], s).row;
    CollectedCounts(symbols, s);
    var hits := set k | 0 <= k < |symbols| && Outcome(symbols[k], s) == Priced(r);
    assert hits == (hits - {i, j}) + {i, j};
  }

  /** The requests issued after visiting `symbols`: one per symbol, in order,
      unless the end date cannot be formed, in which case none. */
  function Requests(symbols: seq<string>, s: Session): (reqs: seq<Request>)
  {
    if s.target + 1 > MaxDay then []
    else seq(|symbols|, i requires 0 <= i < |symbols| => Request(symbols[i], s.prev, s.target + 1))
  }

  /** One more loop iteration appends the request for the next symbol, if any. */
  lemma RequestsStep(symbols: seq<string>, idx: nat, s: Session)
    requires idx < |symbols|
    ensures Requests(symbols[..idx + 1], s) ==
      Requests(symbols[..idx], s) +
        match RequestFor(symbols[idx], s)
        case Some(req) => [req]
        case None => []
  {
  }

  /** The value given to the progress bar after the symbol at `idx`. */
  function Progress(idx: nat, total: nat): (p: real)
    requires idx < total
    ensures 0.0 < p <= 1.0
    ensures p == 1.0 <==> idx == total - 1
  {
    (idx + 1) as real / total as real
  }

  /** Progress strictly increases from one symbol to the next. */
  lemma ProgressIncreases(i: nat, j: nat, total: nat)
    requires i < j < total
    ensures Progress(i, total) < Progress(j, total)
  {
    var t := total as real;
    assert Progress(j, total) - Progress(i, total) == (j - i) as real / t;
  }

  /** `pd.DataFrame(results)`: the rows of the four equally long columns
      'Symbol', 'Previous Close', 'Target Price' and 'Return (%)'. */
  function Frame(symbolCol: seq<string>, prevCol: seq<real>, targetCol: seq<real>, returnCol: seq<Ret>): seq<Row>
    requires |symbolCol| == |prevCol| == |targetCol| == |returnCol|
  {
    seq(|symbolCol|, k requires 0 <= k < |symbolCol| =>
      Row(symbolCol[k], prevCol[k], targetCol[k], returnCol[k]))
  }

  /** Appending one value to each column appends one row to the frame. */
  lemma FrameAppend(symbolCol: seq<string>, prevCol: seq<real>, targetCol: seq<real>, returnCol: seq<Ret>, row: Row)
    requires |symbolCol| == |prevCol| == |targetCol| == |returnCol|
    ensures Frame(symbolCol + [row.symbol], prevCol + [row.prevClose],
                  targetCol + [row.targetPrice], returnCol + [row.ret]) ==
            Frame(symbolCol, prevCol, targetCol, returnCol) + [row]
  {
  }

  /** How the call ends: with a table (empty for a weekend or when no symbol
      succeeded), or with the OverflowError raised when the comparison day
      would precede `date.min`. */
  datatype Completion = Returned(table: seq<Row>) | RaisedOverflow

  /** The loop of lines 50-80 over all symbols: the four result columns it
      fills, the provider requests it issues and the progress values it shows. */
  method ProcessSymbols(symbols: seq<string>, s: Session)
    returns (symbolCol: seq<string>, prevCol: seq<real>, targetCol: seq<real>, returnCol: seq<Ret>,
             requests: seq<Request>, progress: seq<real>)
    ensures |symbolCol| == |prevCol| == |targetCol| == |returnCol|
    ensures Frame(symbolCol, prevCol, targetCol, returnCol) == Collected(symbols, s)
    ensures requests == Requests(symbols, s)
    ensures |progress| == |symbols|
    ensures forall i :: 0 <= i < |symbols| ==> progress[i] == Progress(i, |symbols|)
  {
    symbolCol, prevCol, targetCol, returnCol := [], [], [], [];
    requests, progress := [], [];
    for idx := 0 to |symbols|
      invariant |symbolCol| == |prevCol| == |targetCol| == |returnCol|
      invariant Frame(symbolCol, prevCol, targetCol, returnCol) == Collected(symbols[..idx], s)
      invariant requests == Requests(symbols[..idx], s)
      invariant |progress| == idx
      invariant forall i :: 0 <= i < idx ==> progress[i] == Progress(i, |symbols|)
    {
      var symbol := symbols[idx];
      progress := progress + [Progress(idx, |symbols|)];
      var attempt: Attempt;
      if s.target + 1 > MaxDay {
        attempt := Skipped(EndDateOverflow);
      } else {
        var req := Request(symbol, s.prev, s.target + 1);
        requests := requests + [req];
        attempt := PriceBars(symbol, s.provider(req), s);
      }
      assert attempt == Outcome(symbol, s);
      CollectedStep(symbols, idx, s);
      RequestsStep(symbols, idx, s);
      if attempt.Priced? {
        FrameAppend(symbolCol, prevCol, targetCol, returnCol, attempt.row);
        symbolCol := symbolCol + [attempt.row.symbol];
        prevCol := prevCol + [attempt.row.prevClose];
        targetCol := targetCol + [attempt.row.targetPrice];
        returnCol := returnCol + [attempt.row.ret];
      }
    }
    assert symbols[..|symbols|] == symbols;
  }

  /** `calculate_stock_returns(stock_list, comparison_date, comparison_time)`
      for a parsed target date. Besides the result it reports the requests
      made to the provider and the progress values shown, in order. */
  method CalculateStockReturns(
    symbols: seq<string>, target: int, time: int,
    provider: Request -> Option<seq<Bar>>, round2: real -> real)
    returns (c: Completion, requests: seq<Request>, progress: seq<real>)
    requires InRange(target)
    ensures !ComparisonDay(target).Compare? ==> requests == [] && progress == []
    ensures ComparisonDay(target).Weekend? ==> c == Returned([])
    ensures ComparisonDay(target).BeforeMinDay? ==> c == RaisedOverflow
    ensures ComparisonDay(target).Compare? ==>
      var s := Session(target, ComparisonDay(target).day, time, provider, round2);
      && c.Returned?
      && SortedDesc(c.table)
      && multiset(c.table) == multiset(Collected(symbols, s))
      && requests == Requests(symbols, s)
      && |progress| == |symbols|
      && forall i :: 0 <= i < |symbols| ==> progress[i] == Progress(i, |symbols|)
  {
    var rule := ComparisonDay(target);
    if rule.Weekend? {
      return Returned([]), [], [];
    }
    if rule.BeforeMinDay? {
      return RaisedOverflow, [], [];
    }
    var s := Session(target, rule.day, time, provider, round2);
    var symbolCol, prevCol, targetCol, returnCol;
    symbolCol, prevCol, targetCol, returnCol, requests, progress := ProcessSymbols(symbols, s);
    if |symbolCol| == 0 {
      c := Returned([]);
      return;
    }
    c := Returned(SortByReturn(Frame(symbolCol, prevCol, targetCol, returnCol)));
  }

  /** The finished table has no more rows than input symbols, every row
      belongs to a symbol of the input that could be priced, each row occurs
      exactly as often as input positions yield it, and the table is empty
      exactly when no symbol could be priced. */
  lemma TableFromInput(symbols: seq<string>, s: Session, table: seq<Row>)
    requires multiset(table) == multiset(Collected(symbols, s))
    ensures |table| <= |symbols|
    ensures forall r :: r in table ==>
      r.symbol in symbols && exists i :: 0 <= i < |symbols| && Outcome(symbols[i], s) == Priced(r)
    ensures table == [] <==> forall i :: 0 <= i < |symbols| ==> Outcome(symbols[i], s).Skipped?
    ensures forall r :: multiset(table)[r] == Occurrences(symbols, s, r)
  {
    var rows := Collected(symbols, s);
    CollectedRows(symbols, s);
    CollectedCounts(symbols, s);
    CollectedEmpty(symbols, s);
    assert |table| == |rows| by {
      assert |multiset(table)| == |table| && |multiset(rows)| == |rows|;
    }
    forall r | r in table
      ensures r.symbol in symbols && exists i :: 0 <= i < |symbols| && Outcome(symbols[i], s) == Priced(r)
    {
      assert r in multiset(rows);
      var i :| 0 <= i < |symbols| && Outcome(symbols[i], s) == Priced(r);
      assert symbols[i] in symbols;
    }
  }
}
