/** The running byte average: every report is added and the sum halved. */
module HalvingAverage {
  import opened Common

  /** C++ int division by 2 truncates toward zero. */
  function Half(x: int): int {
    if x >= 0 then x / 2 else -((-x) / 2)
  }

  /** The value after the reports bs, oldest first, from the default 0 on. */
  function Average(bs: seq<int>): int {
    if bs == [] then 0 else Half(Average(bs[..|bs| - 1]) + bs[|bs| - 1])
  }

  function Pow2(n: nat): (p: nat)
    ensures p >= 1
  {
    if n == 0 then 1 else 2 * Pow2(n - 1)
  }

  /** Report i counts with weight 2^i: the newest the most. */
  function Weighted(bs: seq<int>): int {
    if bs == [] then 0
    else Weighted(bs[..|bs| - 1]) + bs[|bs| - 1] * Pow2(|bs| - 1)
  }

  /** Halving drops the remainder toward zero. */
  lemma HalfTruncates(x: int)
    ensures x >= 0 ==> 2 * Half(x) <= x <= 2 * Half(x) + 1
    ensures x < 0 ==> 2 * Half(x) - 1 <= x <= 2 * Half(x)
  {
  }

  /** The same sum from the oldest report on: what follows a report counts twice as much. */
  lemma {:induction false} WeightsDouble(b: int, bs: seq<int>)
    ensures Weighted([b] + bs) == b + 2 * Weighted(bs)
  {
    if bs == [] {
      assert [b] + bs == [b] && [b][..0] == [];
    } else {
      var n := |bs| - 1;
      assert ([b] + bs)[..n + 1] == [b] + bs[..n];
      WeightsDouble(b, bs[..n]);
      assert bs[n] * Pow2(n + 1) == 2 * (bs[n] * Pow2(n));
    }
  }

  /** And what it is divided by doubles with every report. */
  lemma PowersDouble(n: nat)
    ensures Pow2(0) == 1 && Pow2(n + 1) == 2 * Pow2(n)
  {
  }

  ghost predicate NonNegative(bs: seq<int>) {
    forall i :: 0 <= i < |bs| ==> bs[i] >= 0
  }

  lemma {:induction false} WeightedNonNegative(bs: seq<int>)
    requires NonNegative(bs)
    ensures Weighted(bs) >= 0
  {
    if bs != [] {
      WeightedNonNegative(bs[..|bs| - 1]);
      assert bs[|bs| - 1] * Pow2(|bs| - 1) >= 0;
    }
  }

  /** Halving the floor of a quotient, plus a whole number, is the floor over twice the divisor. */
  lemma HalfOfFloor(q: nat, x: nat, p: nat, b: nat)
    requires p >= 1 && IsFloor(q, x, p)
    ensures IsFloor((q + b) / 2, x + b * p, 2 * p)
  {
    var h := (q + b) / 2;
    assert 2 * h <= q + b <= 2 * h + 1;
    assert (q + b) * p == q * p + b * p;
    Scale(2 * h, q + b, p);
    Scale(q + b + 1, 2 * h + 2, p);
    assert h * (2 * p) == (2 * h) * p;
    assert (h + 1) * (2 * p) == (2 * h + 2) * p;
    assert (q + b + 1) * p == (q + 1) * p + b * p;
  }

  /** After any history of non-negative reports the value is floor((sum of b_i * 2^(i-1)) / 2^n). */
  lemma {:induction false} ClosedForm(bs: seq<int>)
    requires NonNegative(bs)
    ensures Average(bs) >= 0 && IsFloor(Average(bs), Weighted(bs), Pow2(|bs|))
    ensures Average(bs) == Weighted(bs) / Pow2(|bs|)
  {
    WeightedNonNegative(bs);
    if bs != [] {
      var n := |bs| - 1;
      ClosedForm(bs[..n]);
      WeightedNonNegative(bs[..n]);
      HalfOfFloor(Average(bs[..n]), Weighted(bs[..n]), Pow2(n), bs[n]);
    }
    FloorIsQuotient(Average(bs), Weighted(bs), Pow2(|bs|));
  }

  /** The value never exceeds the largest report; below it, unless all is 0. */
  lemma {:induction false} NeverAboveLargest(bs: seq<int>, top: int)
    requires NonNegative(bs) && top >= 0 && forall i :: 0 <= i < |bs| ==> bs[i] <= top
    ensures 0 <= Average(bs) <= top && (top > 0 ==> Average(bs) < top)
  {
    if bs != [] {
      NeverAboveLargest(bs[..|bs| - 1], top);
    }
  }

  const INT_MAX := 0x7fff_ffff

  /** The sum formed while the k-th report is taken in. */
  function SumAt(bs: seq<int>, k: nat): int
    requires k < |bs|
  {
    Average(bs[..k]) + bs[k]
  }

  /** Reports below 2^30 never make the sum leave the range of int. */
  lemma NoOverflow(bs: seq<int>, k: nat)
    requires NonNegative(bs) && k < |bs| && forall i :: 0 <= i < |bs| ==> bs[i] < 0x4000_0000
    ensures 0 <= SumAt(bs, k) <= INT_MAX
  {
    NeverAboveLargest(bs[..k], 0x3fff_ffff);
  }

  // ----- The manager: one average per name -----

  datatype Report = Report(name: string, bytes: int)

  /** The reports for one name, in order. */
  function HistoryOf(rs: seq<Report>, name: string): seq<int> {
    if rs == [] then []
    else
      var h := HistoryOf(rs[..|rs| - 1], name);
      var last := rs[|rs| - 1];
      if last.name == name then h + [last.bytes] else h
  }

  lemma HistoryNext(rs: seq<Report>, r: Report, name: string)
    ensures HistoryOf(rs + [r], name) == if r.name == name then HistoryOf(rs, name) + [r.bytes] else HistoryOf(rs, name)
  {
    assert (rs + [r])[..|rs|] == rs;
  }

  lemma AverageNext(bs: seq<int>, b: int)
    ensures Average(bs + [b]) == Half(Average(bs) + b)
  {
    assert (bs + [b])[..|bs|] == bs;
  }

  /** Every name reported has the average of its own history, and no other name has any. */
  ghost predicate Averages(bytes: map<string, int>, rs: seq<Report>) {
    forall name :: AverageAt(bytes, rs, name)
  }

  ghost predicate AverageAt(bytes: map<string, int>, rs: seq<Report>, name: string) {
    && (name in bytes <==> HistoryOf(rs, name) != [])
    && (name in bytes ==> bytes[name] == Average(HistoryOf(rs, name)))
  }

  lemma OneReportMore(was: map<string, int>, now: map<string, int>, rs: seq<Report>, r: Report)
    requires Averages(was, rs)
    requires now == was[r.name := Half((if r.name in was then was[r.name] else 0) + r.bytes)]
    ensures Averages(now, rs + [r])
  {
    hide AverageAt;
    forall k ensures AverageAt(now, rs + [r], k) {
      OneReportMoreAt(was, now, rs, r, k);
    }
  }

  lemma OneReportMoreAt(was: map<string, int>, now: map<string, int>, rs: seq<Report>, r: Report, k: string)
    requires AverageAt(was, rs, k) && AverageAt(was, rs, r.name)
    requires now == was[r.name := Half((if r.name in was then was[r.name] else 0) + r.bytes)]
    ensures AverageAt(now, rs + [r], k)
  {
    assert HistoryOf(rs, r.name) == [] ==> Average(HistoryOf(rs, r.name)) == 0;
    AverageNext(HistoryOf(rs, r.name), r.bytes);
    hide HistoryOf, Average, Half;
    HistoryNext(rs, r, k);
  }

  class DataManager {
    var bytes: map<string, int>

    ghost predicate Holds(rs: seq<Report>)
      reads this
    {
      Averages(bytes, rs)
    }

    constructor ()
      ensures Holds([])
    {
      bytes := map[];
    }

    method DoBytes(name: string, n: int, ghost rs: seq<Report>)
      requires Holds(rs)
      modifies this
      ensures Holds(rs + [Report(name, n)])
    {
      ghost var before := bytes;
      var was := if name in bytes then bytes[name] else 0;
      bytes := bytes[name := was + n];
      bytes := bytes[name := Half(bytes[name])];
      assert bytes == before[name := Half(was + n)];
      hide Averages;
      OneReportMore(before, bytes, rs, Report(name, n));
    }

    /** A name never reported is an exception, here None. */
    method GetBytes(name: string, ghost rs: seq<Report>) returns (n: Option<int>)
      requires Holds(rs)
      ensures n == None <==> HistoryOf(rs, name) == []
      ensures n.Some? ==> n.value == Average(HistoryOf(rs, name))
      ensures n.Some? && NonNegative(HistoryOf(rs, name)) ==>
                n.value == Weighted(HistoryOf(rs, name)) / Pow2(|HistoryOf(rs, name)|)
    {
      assert AverageAt(bytes, rs, name);
      if name !in bytes {
        return None;
      }
      if NonNegative(HistoryOf(rs, name)) {
        ClosedForm(HistoryOf(rs, name));
      }
      n := Some(bytes[name]);
    }
  }

  /** Reports for many names in any interleaving leave every name with its own average. */
  method Replay(rs: seq<Report>) returns (m: DataManager)
    ensures fresh(m) && m.Holds(rs)
  {
    m := new DataManager();
    for i := 0 to |rs|
      invariant fresh(m) && m.Holds(rs[..i])
    {
      m.DoBytes(rs[i].name, rs[i].bytes, rs[..i]);
      assert rs[..i] + [Report(rs[i].name, rs[i].bytes)] == rs[..i + 1];
    }
    assert rs[..|rs|] == rs;
  }
}
