/** CPU percentages over exact reals: sum_cpu_time and the two percentage calculators. */
module CpuAlgebra {
  import opened CpuStat

  function Sum(t: CpuTimes): real {
    t.user + t.system + t.idle + t.nice + t.iowait + t.irq + t.softirq + t.steal + t.guest + t.guestNice
  }

  function Share(before: real, after: real, allDelta: real): real
    requires allDelta != 0.0
  {
    100.0 * (after - before) / allDelta
  }

  /** calculate_cpu_times_percentage. */
  function Percentages(t1: CpuTimes, t2: CpuTimes): CpuTimes
    requires Sum(t2) != Sum(t1)
  {
    var d := Sum(t2) - Sum(t1);
    CpuTimes(user := Share(t1.user, t2.user, d), system := Share(t1.system, t2.system, d),
             idle := Share(t1.idle, t2.idle, d), nice := Share(t1.nice, t2.nice, d),
             iowait := Share(t1.iowait, t2.iowait, d), irq := Share(t1.irq, t2.irq, d),
             softirq := Share(t1.softirq, t2.softirq, d), steal := Share(t1.steal, t2.steal, d),
             guest := Share(t1.guest, t2.guest, d), guestNice := Share(t1.guestNice, t2.guestNice, d))
  }

  /** calculate_cpu_util_percentage. */
  function Utilisation(t1: CpuTimes, t2: CpuTimes): real
    requires Sum(t2) != Sum(t1)
  {
    var busyDelta := (Sum(t2) - t2.idle) - (Sum(t1) - t1.idle);
    var allDelta := Sum(t2) - Sum(t1);
    busyDelta / allDelta * 100.0
  }

  /** The ten fields of a CpuTimes, by position. */
  function Field(t: CpuTimes, i: nat): real
    requires i < 10
  {
    match i
    case 0 => t.user case 1 => t.system case 2 => t.idle case 3 => t.nice case 4 => t.iowait
    case 5 => t.irq case 6 => t.softirq case 7 => t.steal case 8 => t.guest case _ => t.guestNice
  }

  // What the quotients satisfy, without dividing.

  /** p is a hundred times x over d. */
  ghost predicate Ratio(p: real, d: real, x: real) {
    p * d == 100.0 * x
  }

  function Delta(t1: CpuTimes, t2: CpuTimes): real {
    Sum(t2) - Sum(t1)
  }

  /** p is field i's percentage from t1 to t2. */
  ghost predicate IsPercent(p: real, t1: CpuTimes, t2: CpuTimes, i: nat)
    requires i < 10
  {
    Ratio(p, Delta(t1, t2), Field(t2, i) - Field(t1, i))
  }

  ghost predicate ArePercentages(p: CpuTimes, t1: CpuTimes, t2: CpuTimes) {
    forall i: nat :: i < 10 ==> IsPercent(Field(p, i), t1, t2, i)
  }

  /** u is the utilisation from t1 to t2: the share of the total delta that is not idle. */
  ghost predicate IsUtilisation(u: real, t1: CpuTimes, t2: CpuTimes) {
    Ratio(u, Delta(t1, t2), Busy(t2) - Busy(t1))
  }

  function Busy(t: CpuTimes): real {
    Sum(t) - t.idle
  }

  // ----- arithmetic, over plain reals

  lemma Cancel(x: real, y: real, d: real)
    requires d != 0.0 && x * d == y * d
    ensures x == y
  {
    assert (x - y) * d == 0.0;
  }

  lemma Distribute(a: real, b: real, d: real)
    ensures (a - b) * d == a * d - b * d
  {
  }

  lemma TenShares(p0: real, p1: real, p2: real, p3: real, p4: real, p5: real, p6: real, p7: real, p8: real,
                  p9: real, d: real)
    ensures (p0 + p1 + p2 + p3 + p4 + p5 + p6 + p7 + p8 + p9) * d
         == p0 * d + p1 * d + p2 * d + p3 * d + p4 * d + p5 * d + p6 * d + p7 * d + p8 * d + p9 * d
  {
  }

  lemma Divide(n: real, d: real)
    requires d != 0.0
    ensures (n / d) * d == n
  {
  }

  lemma ShareIsRatio(a: real, b: real, d: real)
    requires d != 0.0
    ensures Ratio(Share(a, b, d), d, b - a)
  {
    Divide(100.0 * (b - a), d);
  }

  lemma QuotientIsRatio(x: real, d: real)
    requires d != 0.0
    ensures Ratio(x / d * 100.0, d, x)
  {
    var q := x / d;
    Divide(x, d);
    assert (q * 100.0) * d == 100.0 * (q * d);
  }

  lemma RatioIsUnique(p: real, q: real, d: real, x: real)
    requires d != 0.0 && Ratio(p, d, x) && Ratio(q, d, x)
    ensures p == q
  {
    Cancel(p, q, d);
  }

  lemma RatioOfAll(p: real, d: real)
    requires d != 0.0 && Ratio(p, d, d)
    ensures p == 100.0
  {
    Cancel(p, 100.0, d);
  }

  lemma RatioOfRest(p: real, q: real, d: real, x: real)
    requires d != 0.0 && Ratio(p, d, d - x) && Ratio(q, d, x)
    ensures p == 100.0 - q
  {
    Distribute(100.0, q, d);
    Cancel(p, 100.0 - q, d);
  }

  lemma RatioInRange(p: real, d: real, x: real)
    requires d > 0.0 && 0.0 <= x <= d && Ratio(p, d, x)
    ensures 0.0 <= p <= 100.0
  {
    NonNegative(p, d);
    Distribute(100.0, p, d);
    NonNegative(100.0 - p, d);
  }

  lemma NonNegative(q: real, d: real)
    requires d > 0.0 && q * d >= 0.0
    ensures q >= 0.0
  {
  }

  /** The ratio of two quantities does not depend on the unit they are measured in. */
  lemma RatioTransfers(p: real, d: real, x: real, s: real, e: real, y: real, u: real)
    requires s != 0.0 && u != 0.0 && d * s == e * u && x * s == y * u
    requires Ratio(p, d, x)
    ensures Ratio(p, e, y)
  {
    assert (p * e) * u == (p * d) * s by {
      assert p * (e * u) == (p * e) * u && p * (d * s) == (p * d) * s;
    }
    assert (100.0 * y) * u == (100.0 * x) * s by {
      assert 100.0 * (y * u) == (100.0 * y) * u && 100.0 * (x * s) == (100.0 * x) * s;
    }
    Cancel(p * e, 100.0 * y, u);
  }

  lemma RatiosAddUp(p0: real, p1: real, p2: real, p3: real, p4: real, p5: real, p6: real, p7: real, p8: real, p9: real,
                    x0: real, x1: real, x2: real, x3: real, x4: real, x5: real, x6: real, x7: real, x8: real, x9: real,
                    d: real)
    requires Ratio(p0, d, x0) && Ratio(p1, d, x1) && Ratio(p2, d, x2) && Ratio(p3, d, x3) && Ratio(p4, d, x4)
    requires Ratio(p5, d, x5) && Ratio(p6, d, x6) && Ratio(p7, d, x7) && Ratio(p8, d, x8) && Ratio(p9, d, x9)
    ensures Ratio(p0 + p1 + p2 + p3 + p4 + p5 + p6 + p7 + p8 + p9, d, x0 + x1 + x2 + x3 + x4 + x5 + x6 + x7 + x8 + x9)
  {
    TenShares(p0, p1, p2, p3, p4, p5, p6, p7, p8, p9, d);
  }

  // ----- one step

  lemma FieldIsPercent(t1: CpuTimes, t2: CpuTimes, i: nat)
    requires i < 10 && Sum(t2) != Sum(t1)
    ensures IsPercent(Field(Percentages(t1, t2), i), t1, t2, i)
  {
    hide Ratio, Sum, Share;
    assert Field(Percentages(t1, t2), i) == Share(Field(t1, i), Field(t2, i), Delta(t1, t2));
    ShareIsRatio(Field(t1, i), Field(t2, i), Delta(t1, t2));
  }

  /** Each field of the result is the percentage of its own field, and no other values are. */
  lemma PercentagesMeaning(t1: CpuTimes, t2: CpuTimes)
    requires Sum(t2) != Sum(t1)
    ensures ArePercentages(Percentages(t1, t2), t1, t2)
    ensures forall q :: ArePercentages(q, t1, t2) ==> q == Percentages(t1, t2)
  {
    hide IsPercent, Sum, Field, Percentages;
    var p := Percentages(t1, t2);
    forall i: nat | i < 10 ensures IsPercent(Field(p, i), t1, t2, i) {
      FieldIsPercent(t1, t2, i);
    }
    forall q | ArePercentages(q, t1, t2) ensures q == p {
      OnlyOne(p, q, t1, t2);
    }
  }

  lemma OnlyOne(p: CpuTimes, q: CpuTimes, t1: CpuTimes, t2: CpuTimes)
    requires Sum(t2) != Sum(t1) && ArePercentages(p, t1, t2) && ArePercentages(q, t1, t2)
    ensures p == q
  {
    hide Ratio, Sum, Field;
    forall i: nat | i < 10 ensures Field(p, i) == Field(q, i) {
      assert IsPercent(Field(p, i), t1, t2, i) && IsPercent(Field(q, i), t1, t2, i);
      RatioIsUnique(Field(p, i), Field(q, i), Delta(t1, t2), Field(t2, i) - Field(t1, i));
    }
    SameFields(p, q);
  }

  lemma SameFields(p: CpuTimes, q: CpuTimes)
    requires forall i: nat :: i < 10 ==> Field(p, i) == Field(q, i)
    ensures p == q
  {
    assert Field(p, 0) == Field(q, 0) && Field(p, 1) == Field(q, 1) && Field(p, 2) == Field(q, 2);
    assert Field(p, 3) == Field(q, 3) && Field(p, 4) == Field(q, 4) && Field(p, 5) == Field(q, 5);
    assert Field(p, 6) == Field(q, 6) && Field(p, 7) == Field(q, 7) && Field(p, 8) == Field(q, 8);
    assert Field(p, 9) == Field(q, 9);
  }

  lemma UtilisationMeaning(t1: CpuTimes, t2: CpuTimes)
    requires Sum(t2) != Sum(t1)
    ensures IsUtilisation(Utilisation(t1, t2), t1, t2)
  {
    hide Ratio, Sum;
    QuotientIsRatio(Busy(t2) - Busy(t1), Delta(t1, t2));
  }

  /** Conservation: the ten percentages always add up to 100. */
  lemma PercentagesSumTo100(t1: CpuTimes, t2: CpuTimes)
    requires Sum(t2) != Sum(t1)
    ensures var p := Percentages(t1, t2);
            p.user + p.system + p.idle + p.nice + p.iowait + p.irq + p.softirq + p.steal + p.guest + p.guestNice == 100.0
  {
    PercentagesSum(t1, t2);
  }

  lemma PercentagesSum(t1: CpuTimes, t2: CpuTimes)
    requires Sum(t2) != Sum(t1)
    ensures Sum(Percentages(t1, t2)) == 100.0
  {
    hide Ratio, Sum, Percentages, IsPercent, Field;
    PercentagesMeaning(t1, t2);
    SumIsRatio(Percentages(t1, t2), t1, t2);
    RatioOfAll(Sum(Percentages(t1, t2)), Delta(t1, t2));
  }

  lemma SumIsRatio(p: CpuTimes, t1: CpuTimes, t2: CpuTimes)
    requires ArePercentages(p, t1, t2)
    ensures Ratio(Sum(p), Delta(t1, t2), Delta(t1, t2))
  {
    hide Ratio, ArePercentages;
    EachIsPercent(p, t1, t2);
    RatiosAddUp(p.user, p.system, p.idle, p.nice, p.iowait, p.irq, p.softirq, p.steal, p.guest, p.guestNice,
                t2.user - t1.user, t2.system - t1.system, t2.idle - t1.idle, t2.nice - t1.nice, t2.iowait - t1.iowait,
                t2.irq - t1.irq, t2.softirq - t1.softirq, t2.steal - t1.steal, t2.guest - t1.guest,
                t2.guestNice - t1.guestNice, Delta(t1, t2));
    assert Delta(t1, t2) == t2.user - t1.user + (t2.system - t1.system) + (t2.idle - t1.idle) + (t2.nice - t1.nice)
                            + (t2.iowait - t1.iowait) + (t2.irq - t1.irq) + (t2.softirq - t1.softirq)
                            + (t2.steal - t1.steal) + (t2.guest - t1.guest) + (t2.guestNice - t1.guestNice);
  }

  lemma EachIsPercent(p: CpuTimes, t1: CpuTimes, t2: CpuTimes)
    requires ArePercentages(p, t1, t2)
    ensures var d := Delta(t1, t2);
            && Ratio(p.user, d, t2.user - t1.user) && Ratio(p.system, d, t2.system - t1.system)
            && Ratio(p.idle, d, t2.idle - t1.idle) && Ratio(p.nice, d, t2.nice - t1.nice)
            && Ratio(p.iowait, d, t2.iowait - t1.iowait) && Ratio(p.irq, d, t2.irq - t1.irq)
            && Ratio(p.softirq, d, t2.softirq - t1.softirq) && Ratio(p.steal, d, t2.steal - t1.steal)
            && Ratio(p.guest, d, t2.guest - t1.guest) && Ratio(p.guestNice, d, t2.guestNice - t1.guestNice)
  {
    hide Ratio, Delta;
    assert IsPercent(Field(p, 0), t1, t2, 0) && IsPercent(Field(p, 1), t1, t2, 1) && IsPercent(Field(p, 2), t1, t2, 2);
    assert IsPercent(Field(p, 3), t1, t2, 3) && IsPercent(Field(p, 4), t1, t2, 4) && IsPercent(Field(p, 5), t1, t2, 5);
    assert IsPercent(Field(p, 6), t1, t2, 6) && IsPercent(Field(p, 7), t1, t2, 7) && IsPercent(Field(p, 8), t1, t2, 8);
    assert IsPercent(Field(p, 9), t1, t2, 9);
  }

  /** The two calculators agree: utilisation is what the idle percentage leaves of 100. */
  lemma UtilisationIsNotIdle(t1: CpuTimes, t2: CpuTimes)
    requires Sum(t2) != Sum(t1)
    ensures Utilisation(t1, t2) == 100.0 - Percentages(t1, t2).idle
  {
    hide Ratio, Sum, Percentages, Utilisation, ArePercentages;
    PercentagesMeaning(t1, t2);
    UtilisationMeaning(t1, t2);
    EachIsPercent(Percentages(t1, t2), t1, t2);
    assert Busy(t2) - Busy(t1) == Delta(t1, t2) - (t2.idle - t1.idle);
    RatioOfRest(Utilisation(t1, t2), Percentages(t1, t2).idle, Delta(t1, t2), t2.idle - t1.idle);
  }

  /** Counters that never go back keep every percentage, and utilisation, between 0 and 100. */
  lemma PercentagesInRange(t1: CpuTimes, t2: CpuTimes)
    requires Sum(t2) > Sum(t1)
    requires forall i: nat :: i < 10 ==> Field(t1, i) <= Field(t2, i)
    ensures forall i: nat :: i < 10 ==> 0.0 <= Field(Percentages(t1, t2), i) <= 100.0
    ensures 0.0 <= Utilisation(t1, t2) <= 100.0
  {
    hide Sum, Percentages, Utilisation, ArePercentages;
    PercentagesMeaning(t1, t2);
    InRange(Percentages(t1, t2), t1, t2);
    UtilisationIsNotIdle(t1, t2);
    assert Field(Percentages(t1, t2), 2) == Percentages(t1, t2).idle;
  }

  lemma InRange(p: CpuTimes, t1: CpuTimes, t2: CpuTimes)
    requires Sum(t2) > Sum(t1) && ArePercentages(p, t1, t2)
    requires forall i: nat :: i < 10 ==> Field(t1, i) <= Field(t2, i)
    ensures forall i: nat :: i < 10 ==> 0.0 <= Field(p, i) <= 100.0
  {
    hide Ratio, Sum, Field;
    forall i: nat | i < 10 ensures 0.0 <= Field(p, i) <= 100.0 {
      PartOfSum(t1, t2, i);
      assert IsPercent(Field(p, i), t1, t2, i);
      RatioInRange(Field(p, i), Delta(t1, t2), Field(t2, i) - Field(t1, i));
    }
  }

  lemma PartOfSum(t1: CpuTimes, t2: CpuTimes, i: nat)
    requires i < 10 && forall j: nat :: j < 10 ==> Field(t1, j) <= Field(t2, j)
    ensures 0.0 <= Field(t2, i) - Field(t1, i) <= Delta(t1, t2)
  {
    assert Field(t1, 0) <= Field(t2, 0) && Field(t1, 1) <= Field(t2, 1) && Field(t1, 2) <= Field(t2, 2);
    assert Field(t1, 3) <= Field(t2, 3) && Field(t1, 4) <= Field(t2, 4) && Field(t1, 5) <= Field(t2, 5);
    assert Field(t1, 6) <= Field(t2, 6) && Field(t1, 7) <= Field(t2, 7) && Field(t1, 8) <= Field(t2, 8);
    assert Field(t1, 9) <= Field(t2, 9);
  }

  // ----- the clock rate

  function Ticks(v: seq<int>): int
    requires |v| == 10
  {
    v[0] + v[1] + v[2] + v[3] + v[4] + v[5] + v[6] + v[7] + v[8] + v[9]
  }

  /** Position in the text of struct field i. */
  function TextIndex(i: nat): nat
    requires i < 10
  {
    match i case 1 => 2 case 2 => 3 case 3 => 1 case _ => i
  }

  /** t is the sample with tick counts v at clock rate s. */
  ghost predicate Sampled(t: CpuTimes, v: seq<int>, s: real) {
    && |v| == 10 && s != 0.0 && Sum(t) * s == Ticks(v) as real
    && forall i: nat :: i < 10 ==> Field(t, i) * s == v[TextIndex(i)] as real
  }

  lemma FieldTicks(v: seq<int>, s: real, i: nat)
    requires |v| == 10 && s != 0.0 && i < 10
    ensures Field(FromTicks(v, s), i) * s == v[TextIndex(i)] as real
  {
    Divide(v[TextIndex(i)] as real, s);
  }

  lemma ParsedIsSampled(v: seq<int>, s: real)
    requires |v| == 10 && s != 0.0
    ensures Sampled(FromTicks(v, s), v, s)
  {
    hide FromTicks, Field, Sum, Ticks;
    forall i: nat | i < 10 ensures Field(FromTicks(v, s), i) * s == v[TextIndex(i)] as real {
      FieldTicks(v, s, i);
    }
    FieldsAddUp(FromTicks(v, s), v, s);
  }

  lemma FieldsAddUp(t: CpuTimes, v: seq<int>, s: real)
    requires |v| == 10 && forall i: nat :: i < 10 ==> Field(t, i) * s == v[TextIndex(i)] as real
    ensures Sum(t) * s == Ticks(v) as real
  {
    TenShares(t.user, t.system, t.idle, t.nice, t.iowait, t.irq, t.softirq, t.steal, t.guest, t.guestNice, s);
    assert Field(t, 0) * s == v[0] as real && Field(t, 1) * s == v[2] as real && Field(t, 2) * s == v[3] as real;
    assert Field(t, 3) * s == v[1] as real && Field(t, 4) * s == v[4] as real && Field(t, 5) * s == v[5] as real;
    assert Field(t, 6) * s == v[6] as real && Field(t, 7) * s == v[7] as real && Field(t, 8) * s == v[8] as real;
    assert Field(t, 9) * s == v[9] as real;
  }

  lemma TotalsDiffer(t1: CpuTimes, t2: CpuTimes, v: seq<int>, w: seq<int>, s: real)
    requires Sampled(t1, v, s) && Sampled(t2, w, s) && Ticks(v) != Ticks(w)
    ensures Sum(t1) != Sum(t2)
  {
    hide Sum, Field, Ticks;
  }

  /** In ticks, the deltas of two samples are the same at every clock rate. */
  lemma SameTicks(t1: CpuTimes, t2: CpuTimes, u1: CpuTimes, u2: CpuTimes, v: seq<int>, w: seq<int>, s: real, u: real,
                  i: nat)
    requires Sampled(t1, v, s) && Sampled(t2, w, s) && Sampled(u1, v, u) && Sampled(u2, w, u) && i < 10
    ensures Delta(t1, t2) * s == Delta(u1, u2) * u
    ensures (Field(t2, i) - Field(t1, i)) * s == (Field(u2, i) - Field(u1, i)) * u
  {
    hide Sum, Field, Ticks;
    Distribute(Sum(t2), Sum(t1), s);
    Distribute(Sum(u2), Sum(u1), u);
    Distribute(Field(t2, i), Field(t1, i), s);
    Distribute(Field(u2, i), Field(u1, i), u);
  }

  /** A percentage in seconds is the same ratio of tick counts, so it is the percentage at every
      other clock rate too. */
  lemma PercentTransfers(p: real, t1: CpuTimes, t2: CpuTimes, u1: CpuTimes, u2: CpuTimes,
                         v: seq<int>, w: seq<int>, s: real, u: real, i: nat)
    requires Sampled(t1, v, s) && Sampled(t2, w, s) && Sampled(u1, v, u) && Sampled(u2, w, u)
    requires i < 10 && IsPercent(p, t1, t2, i)
    ensures IsPercent(p, u1, u2, i)
  {
    hide Ratio, Sum, Delta, Field, Ticks;
    SameTicks(t1, t2, u1, u2, v, w, s, u, i);
    RatioTransfers(p, Delta(t1, t2), Field(t2, i) - Field(t1, i), s, Delta(u1, u2), Field(u2, i) - Field(u1, i), u);
  }

  lemma PercentagesTransfer(p: CpuTimes, t1: CpuTimes, t2: CpuTimes, u1: CpuTimes, u2: CpuTimes,
                            v: seq<int>, w: seq<int>, s: real, u: real)
    requires Sampled(t1, v, s) && Sampled(t2, w, s) && Sampled(u1, v, u) && Sampled(u2, w, u)
    requires ArePercentages(p, t1, t2)
    ensures ArePercentages(p, u1, u2)
  {
    hide IsPercent, Sampled, Field;
    forall i: nat | i < 10 ensures IsPercent(Field(p, i), u1, u2, i) {
      assert IsPercent(Field(p, i), t1, t2, i);
      PercentTransfers(Field(p, i), t1, t2, u1, u2, v, w, s, u, i);
    }
  }

  lemma RateCancels(t1: CpuTimes, t2: CpuTimes, u1: CpuTimes, u2: CpuTimes, v: seq<int>, w: seq<int>, s: real, u: real)
    requires Sampled(t1, v, s) && Sampled(t2, w, s) && Sampled(u1, v, u) && Sampled(u2, w, u) && Ticks(v) != Ticks(w)
    ensures Sum(t1) != Sum(t2) && Sum(u1) != Sum(u2)
    ensures Percentages(t1, t2) == Percentages(u1, u2) && Utilisation(t1, t2) == Utilisation(u1, u2)
  {
    hide Sampled, Sum, Percentages, Utilisation, ArePercentages;
    TotalsDiffer(t1, t2, v, w, s);
    TotalsDiffer(u1, u2, v, w, u);
    PercentagesMeaning(t1, t2);
    PercentagesTransfer(Percentages(t1, t2), t1, t2, u1, u2, v, w, s, u);
    PercentagesMeaning(u1, u2);
    UtilisationIsNotIdle(t1, t2);
    UtilisationIsNotIdle(u1, u2);
  }

  /** The clock rate cancels: through parse_cpu_times both calculators give results that do not
      depend on it. */
  lemma ClockRateCancels(v: seq<int>, w: seq<int>, s: real, u: real)
    requires |v| == 10 && |w| == 10 && s != 0.0 && u != 0.0 && Ticks(v) != Ticks(w)
    ensures Sum(FromTicks(v, s)) != Sum(FromTicks(w, s)) && Sum(FromTicks(v, u)) != Sum(FromTicks(w, u))
    ensures Percentages(FromTicks(v, s), FromTicks(w, s)) == Percentages(FromTicks(v, u), FromTicks(w, u))
    ensures Utilisation(FromTicks(v, s), FromTicks(w, s)) == Utilisation(FromTicks(v, u), FromTicks(w, u))
  {
    hide Sampled, Sum, Percentages, Utilisation, FromTicks, Ticks;
    ParsedIsSampled(v, s);
    ParsedIsSampled(w, s);
    ParsedIsSampled(v, u);
    ParsedIsSampled(w, u);
    RateCancels(FromTicks(v, s), FromTicks(w, s), FromTicks(v, u), FromTicks(w, u), v, w, s, u);
  }

  // ----- runs of samples

  /** ps holds the percentages of each step of the run ts. */
  ghost predicate StepPercentages(ts: seq<CpuTimes>, ps: seq<CpuTimes>) {
    && |ts| == |ps| + 1
    && forall j :: 0 <= j < |ps| ==> Sum(ts[j]) != Sum(ts[j + 1]) && ps[j] == Percentages(ts[j], ts[j + 1])
  }

  ghost predicate StepUtilisations(ts: seq<CpuTimes>, us: seq<real>) {
    && |ts| == |us| + 1
    && forall j :: 0 <= j < |us| ==> Sum(ts[j]) != Sum(ts[j + 1]) && us[j] == Utilisation(ts[j], ts[j + 1])
  }

  /** The sum of xs[j] times the total time of step j. */
  function Weighted(ts: seq<CpuTimes>, xs: seq<real>): real
    requires |ts| == |xs| + 1
  {
    if xs == [] then 0.0 else xs[0] * Delta(ts[0], ts[1]) + Weighted(ts[1..], xs[1..])
  }

  function Column(ps: seq<CpuTimes>, i: nat): (xs: seq<real>)
    requires i < 10
    ensures |xs| == |ps| && forall j :: 0 <= j < |ps| ==> xs[j] == Field(ps[j], i)
  {
    seq(|ps|, j requires 0 <= j < |ps| => Field(ps[j], i))
  }

  /** A quantity y of the samples whose step shares are xs: the weighted shares telescope. */
  lemma {:induction false} WeightedTelescopes(ts: seq<CpuTimes>, xs: seq<real>, ys: seq<real>)
    requires |ts| == |xs| + 1 && |ys| == |ts|
    requires forall j :: 0 <= j < |xs| ==> Ratio(xs[j], Delta(ts[j], ts[j + 1]), ys[j + 1] - ys[j])
    ensures Weighted(ts, xs) == 100.0 * (ys[|ys| - 1] - ys[0])
  {
    hide Delta;
    if xs != [] {
      assert Ratio(xs[0], Delta(ts[0], ts[0 + 1]), ys[0 + 1] - ys[0]);
      forall j | 0 <= j < |xs[1..]|
        ensures Ratio(xs[1..][j], Delta(ts[1..][j], ts[1..][j + 1]), ys[1..][j + 1] - ys[1..][j])
      {
        assert Ratio(xs[j + 1], Delta(ts[j + 1], ts[(j + 1) + 1]), ys[(j + 1) + 1] - ys[j + 1]);
      }
      WeightedTelescopes(ts[1..], xs[1..], ys[1..]);
    }
  }

  /** Over any run of samples, each percentage between the first and the last is the mean of the
      step-by-step percentages, weighted by how much total time each step took. */
  lemma PercentRunsCompose(ts: seq<CpuTimes>, ps: seq<CpuTimes>, whole: CpuTimes, i: nat)
    requires i < 10 && StepPercentages(ts, ps) && Sum(ts[0]) != Sum(ts[|ts| - 1])
    requires whole == Percentages(ts[0], ts[|ts| - 1])
    ensures Field(whole, i) * Delta(ts[0], ts[|ts| - 1]) == Weighted(ts, Column(ps, i))
  {
    hide Sum, Field, Percentages, IsPercent, Weighted;
    forall j | 0 <= j < |ps| ensures IsPercent(Column(ps, i)[j], ts[j], ts[j + 1], i) {
      FieldIsPercent(ts[j], ts[j + 1], i);
    }
    FieldIsPercent(ts[0], ts[|ts| - 1], i);
    FieldRun(ts, Column(ps, i), Field(whole, i), i);
  }

  lemma FieldRun(ts: seq<CpuTimes>, xs: seq<real>, x: real, i: nat)
    requires i < 10 && |ts| == |xs| + 1 && IsPercent(x, ts[0], ts[|ts| - 1], i)
    requires forall j :: 0 <= j < |xs| ==> IsPercent(xs[j], ts[j], ts[j + 1], i)
    ensures x * Delta(ts[0], ts[|ts| - 1]) == Weighted(ts, xs)
  {
    hide Delta, Field, Weighted;
    var ys := seq(|ts|, j requires 0 <= j < |ts| => Field(ts[j], i));
    forall j | 0 <= j < |xs| ensures Ratio(xs[j], Delta(ts[j], ts[j + 1]), ys[j + 1] - ys[j]) {
      assert IsPercent(xs[j], ts[j], ts[j + 1], i);
    }
    WeightedTelescopes(ts, xs, ys);
  }

  /** The same for utilisation. */
  lemma UtilisationRunsCompose(ts: seq<CpuTimes>, us: seq<real>)
    requires StepUtilisations(ts, us) && Sum(ts[0]) != Sum(ts[|ts| - 1])
    ensures Utilisation(ts[0], ts[|ts| - 1]) * Delta(ts[0], ts[|ts| - 1]) == Weighted(ts, us)
  {
    hide Sum, Utilisation, IsUtilisation, Weighted;
    forall j | 0 <= j < |us| ensures IsUtilisation(us[j], ts[j], ts[j + 1]) {
      UtilisationMeaning(ts[j], ts[j + 1]);
    }
    UtilisationMeaning(ts[0], ts[|ts| - 1]);
    UtilisationRun(ts, us, Utilisation(ts[0], ts[|ts| - 1]));
  }

  lemma UtilisationRun(ts: seq<CpuTimes>, us: seq<real>, u: real)
    requires |ts| == |us| + 1 && IsUtilisation(u, ts[0], ts[|ts| - 1])
    requires forall j :: 0 <= j < |us| ==> IsUtilisation(us[j], ts[j], ts[j + 1])
    ensures u * Delta(ts[0], ts[|ts| - 1]) == Weighted(ts, us)
  {
    hide Delta, Busy, Weighted;
    var ys := seq(|ts|, j requires 0 <= j < |ts| => Busy(ts[j]));
    forall j | 0 <= j < |us| ensures Ratio(us[j], Delta(ts[j], ts[j + 1]), ys[j + 1] - ys[j]) {
      assert IsUtilisation(us[j], ts[j], ts[j + 1]);
    }
    WeightedTelescopes(ts, us, ys);
  }

  /** Strictly increasing totals, as in any sampling of a running machine, meet the premises. */
  lemma {:induction false} IncreasingTotals(ts: seq<CpuTimes>)
    requires |ts| >= 2 && forall i :: 0 <= i < |ts| - 1 ==> Sum(ts[i]) < Sum(ts[i + 1])
    ensures Sum(ts[0]) < Sum(ts[|ts| - 1])
  {
    hide Sum;
    if |ts| > 2 {
      var init := ts[..|ts| - 1];
      IncreasingTotals(init);
      assert init[|init| - 1] == ts[|ts| - 2];
      assert Sum(ts[|ts| - 2]) < Sum(ts[(|ts| - 2) + 1]);
    }
  }
}
