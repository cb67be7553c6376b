/** Hourly bars from the price-history provider, the two prices read from
    them, and the percentage return computed from those prices. */
module Quotes {

  datatype Option<T> = None | Some(value: T)

  /** One hourly bar: its calendar day and its time of day (minutes after
      midnight), both in the exchange's time zone, and its closing price.
      The other OHLC fields are never read. */
  datatype Bar = Bar(day: int, time: int, close: real)

  /** The elements of `s` that satisfy `p`, in their original order
      (a boolean-mask selection on a frame's rows). */
  function Keep(s: seq<Bar>, p: Bar -> bool): (r: seq<Bar>)
    ensures |r| <= |s|
  {
    if s == [] then []
    else (if p(s[0]) then [s[0]] else []) + Keep(s[1..], p)
  }

  /** Selection keeps exactly the elements that satisfy `p`. */
  lemma {:induction false} KeepMembers(s: seq<Bar>, p: Bar -> bool)
    ensures forall x :: x in Keep(s, p) <==> x in s && p(x)
  {
    if s != [] {
      KeepMembers(s[1..], p);
      assert s == [s[0]] + s[1..];
    }
  }

  /** Selecting by `p` and then by `q` is selecting by both at once. */
  lemma {:induction false} KeepKeep(s: seq<Bar>, p: Bar -> bool, q: Bar -> bool)
    ensures Keep(Keep(s, p), q) == Keep(s, x => p(x) && q(x))
  {
    if s != [] {
      KeepKeep(s[1..], p, q);
      if p(s[0]) {
        assert Keep(s, p) == [s[0]] + Keep(s[1..], p);
        assert Keep(s, p)[1..] == Keep(s[1..], p);
      } else {
        assert Keep(s, p) == Keep(s[1..], p);
      }
    }
  }

  /** The first element kept is the element at the first index of `s` that satisfies `p`. */
  lemma {:induction false} KeepFirst(s: seq<Bar>, p: Bar -> bool)
    ensures Keep(s, p) == [] <==> forall i :: 0 <= i < |s| ==> !p(s[i])
    ensures Keep(s, p) != [] ==>
      exists i :: 0 <= i < |s| && p(s[i]) && Keep(s, p)[0] == s[i] &&
                  forall j :: 0 <= j < i ==> !p(s[j])
  {
    if s != [] {
      KeepFirst(s[1..], p);
      if !p(s[0]) && Keep(s, p) != [] {
        var i :| 0 <= i < |s| - 1 && p(s[1..][i]) && Keep(s[1..], p)[0] == s[1..][i] &&
                 forall j :: 0 <= j < i ==> !p(s[1..][j]);
        assert p(s[i + 1]) && Keep(s, p)[0] == s[i + 1];
        assert forall j :: 0 <= j < i + 1 ==> !p(s[j]) by {
          forall j | 1 <= j < i + 1 ensures !p(s[j]) {
            assert s[j] == s[1..][j - 1];
          }
        }
      }
      if !p(s[0]) && Keep(s, p) == [] {
        forall i | 0 <= i < |s| ensures !p(s[i]) {
          if i > 0 { assert s[i] == s[1..][i - 1]; }
        }
      }
    }
  }

  /** Selection distributes over concatenation. */
  lemma {:induction false} KeepAppend(a: seq<Bar>, b: seq<Bar>, p: Bar -> bool)
    ensures Keep(a + b, p) == Keep(a, p) + Keep(b, p)
  {
    if a != [] {
      KeepAppend(a[1..], b, p);
      assert (a + b)[1..] == a[1..] + b;
    } else {
      assert a + b == b;
    }
  }

  /** The last element kept is the element at the last index of `s` that satisfies `p`. */
  lemma {:induction false} KeepLast(s: seq<Bar>, p: Bar -> bool)
    ensures Keep(s, p) != [] ==>
      exists i :: 0 <= i < |s| && p(s[i]) && Keep(s, p)[|Keep(s, p)| - 1] == s[i] &&
                  forall j :: i < j < |s| ==> !p(s[j])
  {
    if s != [] {
      var n := |s|;
      var init := s[..n - 1];
      assert s == init + [s[n - 1]];
      KeepAppend(init, [s[n - 1]], p);
      assert Keep([s[n - 1]], p) == if p(s[n - 1]) then [s[n - 1]] else [];
      if p(s[n - 1]) {
        assert Keep(s, p)[|Keep(s, p)| - 1] == s[n - 1];
      } else {
        KeepLast(init, p);
        assert Keep(s, p) == Keep(init, p);
        if Keep(s, p) != [] {
          var i :| 0 <= i < |init| && p(init[i]) &&
                   Keep(init, p)[|Keep(init, p)| - 1] == init[i] &&
                   forall j :: i < j < |init| ==> !p(init[j]);
          assert s[i] == init[i];
          forall j | i < j < n ensures !p(s[j]) {
            if j < n - 1 { assert s[j] == init[j]; }
          }
        }
      }
    }
  }

  /** The row masks at streamlit_price_change_from_close.py:63, 65 and 68. */
  function DayIs(day: int): Bar -> bool {
    (b: Bar) => b.day == day
  }

  function TimeIs(time: int): Bar -> bool {
    (b: Bar) => b.time == time
  }

  /** The rows whose date is `day` (the date masks at
      streamlit_price_change_from_close.py:63 and 68). */
  function BarsOn(bars: seq<Bar>, day: int): seq<Bar>
  {
    Keep(bars, DayIs(day))
  }

  predicate At(b: Bar, day: int, time: int) {
    b.day == day && b.time == time
  }

  /** Close of the first bar of `day` whose time of day is `time`, or None
      when there is none (where `.values[0]` raises IndexError). */
  function TargetPrice(bars: seq<Bar>, day: int, time: int): Option<real>
  {
    var hits := Keep(BarsOn(bars, day), TimeIs(time));
    if hits == [] then None else Some(hits[0].close)
  }

  /** Close of the last bar of `day`, or None when that day has no bar
      (where `.iloc[-1]` raises IndexError). */
  function PrevClose(bars: seq<Bar>, day: int): Option<real>
  {
    var rows := BarsOn(bars, day);
    if rows == [] then None else Some(rows[|rows| - 1].close)
  }

  /** The target price exists exactly when some bar lies at (`day`, `time`),
      and it is the close of the earliest such bar in the provider's order. */
  lemma TargetPriceIsFirstMatch(bars: seq<Bar>, day: int, time: int)
    ensures TargetPrice(bars, day, time).None? <==>
      forall i :: 0 <= i < |bars| ==> !At(bars[i], day, time)
    ensures TargetPrice(bars, day, time).Some? ==>
      exists i :: 0 <= i < |bars| && At(bars[i], day, time) &&
                  bars[i].close == TargetPrice(bars, day, time).value &&
                  forall j :: 0 <= j < i ==> !At(bars[j], day, time)
  {
    var both := (b: Bar) => DayIs(day)(b) && TimeIs(time)(b);
    KeepKeep(bars, DayIs(day), TimeIs(time));
    KeepFirst(bars, both);
    assert forall b :: both(b) == At(b, day, time);
  }

  /** The previous close exists exactly when some bar lies on `day`, and it is
      the close of the latest such bar in the provider's order. */
  lemma PrevCloseIsLastOfDay(bars: seq<Bar>, day: int)
    ensures PrevClose(bars, day).None? <==> forall i :: 0 <= i < |bars| ==> bars[i].day != day
    ensures PrevClose(bars, day).Some? ==>
      exists i :: 0 <= i < |bars| && bars[i].day == day &&
                  bars[i].close == PrevClose(bars, day).value &&
                  forall j :: i < j < |bars| ==> bars[j].day != day
  {
    var rows := Keep(bars, DayIs(day));
    assert forall b :: DayIs(day)(b) <==> b.day == day;
    KeepFirst(bars, DayIs(day));
    KeepLast(bars, DayIs(day));
    if rows != [] {
      var i :| 0 <= i < |bars| && DayIs(day)(bars[i]) && rows[|rows| - 1] == bars[i] &&
               forall j :: i < j < |bars| ==> !DayIs(day)(bars[j]);
      assert bars[i].close == PrevClose(bars, day).value;
    }
  }

  /** A float64 percentage: numpy division by a zero close yields an infinity
      or NaN instead of raising. */
  datatype Ret = PosInf | Fin(pct: real) | NegInf | NaN

  /** `(target - prev) / prev * 100` in numpy float semantics over the reals. */
  function ReturnPct(prev: real, target: real): (r: Ret)
    ensures prev != 0.0 ==> r.Fin? && prev * (1.0 + r.pct / 100.0) == target
    ensures prev == 0.0 ==> !r.Fin? && (r.NaN? <==> target == 0.0) && (r.PosInf? <==> target > 0.0)
  {
    if prev != 0.0 then Fin((target - prev) / prev * 100.0)
    else if target > 0.0 then PosInf
    else if target < 0.0 then NegInf
    else NaN
  }

  /** With a positive previous close the return has the sign of the price change. */
  lemma ReturnSign(prev: real, target: real)
    requires prev > 0.0
    ensures ReturnPct(prev, target).Fin?
    ensures ReturnPct(prev, target).pct > 0.0 <==> target > prev
    ensures ReturnPct(prev, target).pct == 0.0 <==> target == prev
    ensures ReturnPct(prev, target).pct < 0.0 <==> target < prev
  {
    var x := ReturnPct(prev, target).pct;
    assert x * prev == (target - prev) * 100.0;
    if target > prev {
      assert x * prev > 0.0;
    } else if target < prev {
      assert x * prev < 0.0;
    }
  }

  /** `round(x, 2)` applied to a return: the rounding acts on finite values only. */
  function RoundRet(round2: real -> real, r: Ret): (q: Ret)
    ensures q.Fin? <==> r.Fin?
    ensures !r.Fin? ==> q == r
  {
    match r
    case Fin(x) => Fin(round2(x))
    case _ => r
  }
}
