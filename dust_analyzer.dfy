/**
 * The read-only view of `get_package_stats`: days unused, the dust score,
 * the safety tag, the `ORDER BY days_unused DESC, name` order of the
 * package list, and the three summary counts.
 */
module DustAnalyzer {
  import opened Wrappers
  import opened PackageStore

  const SecondsPerDay: int := 86400
  /** `days_unused` of a row whose `last_seen` is 'Never'. */
  const NeverDays: int := 999
  /** `min(row[5], 365)`: the score reads at most 365 days. */
  const DustCap: int := 365
  /** Days of disuse that make a package fully dusty, and that make an explicit package safe to remove. */
  const FullDustDays: int := 30
  const WeekDays: int := 7

  /**
   * `CAST(<difference in days> AS INTEGER)`: whole days in `seconds`,
   * truncated toward zero as SQLite's cast does (so a clock that runs
   * behind gives a non-positive count, never a more negative one).
   */
  function WholeDays(seconds: int): (d: int)
    ensures seconds >= 0 ==> 0 <= d && d * SecondsPerDay <= seconds < (d + 1) * SecondsPerDay
    ensures seconds < 0 ==> d <= 0 && -d * SecondsPerDay <= -seconds < (-d + 1) * SecondsPerDay
  {
    if seconds >= 0 then seconds / SecondsPerDay else -((-seconds) / SecondsPerDay)
  }

  /**
   * The day difference the SQL computes from `last_seen`, truncated to an
   * integer: the Julian day of the text 'Never' is NULL, and so is the difference.
   */
  function DayDifference(lastSeen: LastSeen, now: int): (d: Option<int>)
    ensures d.None? <==> lastSeen.Never?
    ensures lastSeen.At? && lastSeen.time <= now ==> d.value >= 0
  {
    match lastSeen
    case Never => None
    case At(t) => Some(WholeDays(now - t))
  }

  /** SQL's `x > k`, which is not true when `x` is NULL. */
  predicate Exceeds(x: Option<int>, k: int) {
    x.Some? && x.value > k
  }

  /** The `days_unused` column: 999 for 'Never', otherwise the day difference. */
  function DaysUnused(lastSeen: LastSeen, now: int): (d: int)
    ensures lastSeen.Never? ==> d == NeverDays
    ensures lastSeen.At? ==> DayDifference(lastSeen, now) == Some(d)
  {
    match DayDifference(lastSeen, now)
    case None => NeverDays
    case Some(d) => d
  }

  /**
   * `min((min(days, 365) / 30.0) * 100, 100)`, in exact arithmetic: it rises
   * linearly to 100 at 30 days and stays there; a clock running behind
   * gives a negative score.
   */
  function DustPercentage(days: int): (p: real)
    ensures days >= FullDustDays ==> p == 100.0
    ensures days <= FullDustDays ==> p == days as real * 100.0 / 30.0
    ensures days >= 0 ==> 0.0 <= p <= 100.0
    ensures days < 0 ==> p < 0.0
  {
    var level := if days < DustCap then days else DustCap;
    var score := (level as real / 30.0) * 100.0;
    if score < 100.0 then score else 100.0
  }

  /** A higher day count never gives a lower score. */
  lemma DustMonotone(a: int, b: int)
    requires a <= b
    ensures DustPercentage(a) <= DustPercentage(b)
  {
  }

  lemma DustBoundaries()
    ensures DustPercentage(15) == 50.0
    ensures DustPercentage(30) == 100.0
    ensures DustPercentage(400) == 100.0
  {
  }

  datatype Safety = Safe | Risky

  /** `'safe' if row[3] and row[5] > 30 else 'risky'`. */
  function SafetyOf(explicit: bool, days: int): (s: Safety)
    ensures s == Safe <==> explicit && days > FullDustDays
  {
    if explicit && days > FullDustDays then Safe else Risky
  }

  /** A row of the SELECT: the stored columns and `days_unused`. */
  datatype Row = Row(name: string, description: string, installDate: string, explicitInstall: bool,
                     lastSeen: LastSeen, daysUnused: int)

  /** One entry of the returned `packages` list. */
  datatype PackageView = PackageView(name: string, description: string, installDate: string, explicitInstall: bool,
                                     lastSeen: LastSeen, daysUnused: int, dustPercentage: real, safety: Safety)

  function RowOf(m: Store, name: string, now: int): Row
    requires name in m
  {
    var p := m[name];
    Row(name, p.description, p.installDate, p.explicitInstall, p.lastSeen, DaysUnused(p.lastSeen, now))
  }

  /** The dict the loop builds from one row. */
  function ViewOf(row: Row): (v: PackageView)
    ensures v.name == row.name && v.lastSeen == row.lastSeen && v.daysUnused == row.daysUnused
    ensures v.description == row.description && v.installDate == row.installDate
    ensures v.explicitInstall == row.explicitInstall
  {
    PackageView(row.name, row.description, row.installDate, row.explicitInstall, row.lastSeen, row.daysUnused,
                DustPercentage(row.daysUnused), SafetyOf(row.explicitInstall, row.daysUnused))
  }

  /** Each entry's dust percentage lies in [0, 100], and it is tagged safe exactly when explicit and idle over 30 days. */
  lemma ViewOfSpec(row: Row)
    ensures 0 <= row.daysUnused ==> 0.0 <= ViewOf(row).dustPercentage <= 100.0
    ensures ViewOf(row).safety == Safe <==> row.explicitInstall && row.daysUnused > FullDustDays
  {
  }

  /** SQLite's BINARY collation on names: code point by code point, a proper prefix first. */
  predicate NameBefore(a: string, b: string) {
    if a == [] then b != []
    else if b == [] then false
    else if a[0] != b[0] then a[0] < b[0]
    else NameBefore(a[1..], b[1..])
  }

  lemma {:induction false} NameBeforeIrreflexive(a: string)
    ensures !NameBefore(a, a)
  {
    if a != [] { NameBeforeIrreflexive(a[1..]); }
  }

  lemma {:induction false} NameBeforeAsymmetric(a: string, b: string)
    requires NameBefore(a, b)
    ensures !NameBefore(b, a)
  {
    if a != [] && b != [] && a[0] == b[0] { NameBeforeAsymmetric(a[1..], b[1..]); }
  }

  lemma {:induction false} NameBeforeTransitive(a: string, b: string, c: string)
    requires NameBefore(a, b) && NameBefore(b, c)
    ensures NameBefore(a, c)
  {
    if a != [] && b != [] && c != [] && a[0] == b[0] == c[0] {
      NameBeforeTransitive(a[1..], b[1..], c[1..]);
    }
  }

  lemma {:induction false} NameBeforeTotal(a: string, b: string)
    requires a != b
    ensures NameBefore(a, b) || NameBefore(b, a)
  {
    if a != [] && b != [] && a[0] == b[0] {
      assert a == [a[0]] + a[1..] && b == [b[0]] + b[1..];
      NameBeforeTotal(a[1..], b[1..]);
    }
  }

  /** `ORDER BY days_unused DESC, name`: more days first, then names in collation order. */
  predicate Precedes(days1: int, name1: string, days2: int, name2: string) {
    days1 > days2 || (days1 == days2 && NameBefore(name1, name2))
  }

  predicate RowPrecedes(a: Row, b: Row) {
    Precedes(a.daysUnused, a.name, b.daysUnused, b.name)
  }

  predicate ViewPrecedes(a: PackageView, b: PackageView) {
    Precedes(a.daysUnused, a.name, b.daysUnused, b.name)
  }

  lemma PrecedesStrictTotal()
    ensures forall d, n :: !Precedes(d, n, d, n)
    ensures forall d1, n1, d2, n2 :: Precedes(d1, n1, d2, n2) ==> !Precedes(d2, n2, d1, n1)
    ensures forall d1, n1, d2, n2, d3, n3 :: Precedes(d1, n1, d2, n2) && Precedes(d2, n2, d3, n3) ==> Precedes(d1, n1, d3, n3)
    ensures forall d1, n1, d2, n2 :: n1 != n2 ==> Precedes(d1, n1, d2, n2) || Precedes(d2, n2, d1, n1)
  {
    forall n: string { NameBeforeIrreflexive(n); }
    forall n1: string, n2: string | NameBefore(n1, n2) { NameBeforeAsymmetric(n1, n2); }
    forall n1: string, n2: string, n3: string | NameBefore(n1, n2) && NameBefore(n2, n3) {
      NameBeforeTransitive(n1, n2, n3);
    }
    forall n1: string, n2: string | n1 != n2 { NameBeforeTotal(n1, n2); }
  }

  /** `name` comes before every other stored name. */
  predicate IsFirst(m: Store, now: int, name: string)
    requires name in m
  {
    forall k :: k in m && k != name ==> RowPrecedes(RowOf(m, name, now), RowOf(m, k, now))
  }

  lemma {:induction false} FirstExists(m: Store, now: int)
    requires |m| > 0
    ensures exists n :: n in m && IsFirst(m, now, n)
    decreases |m|
  {
    var x :| x in m;
    var rest := m - {x};
    if |rest| == 0 {
      assert IsFirst(m, now, x);
    } else {
      assert |rest| < |m| by { assert rest.Keys == m.Keys - {x}; }
      FirstExists(rest, now);
      var y :| y in rest && IsFirst(rest, now, y);
      var rx, ry := RowOf(m, x, now), RowOf(m, y, now);
      if RowPrecedes(rx, ry) {
        forall k | k in m && k != x ensures RowPrecedes(rx, RowOf(m, k, now)) {
          if k != y {
            assert RowOf(rest, k, now) == RowOf(m, k, now) && RowOf(rest, y, now) == ry;
            RowPrecedesTransitive(rx, ry, RowOf(m, k, now));
          }
        }
        assert IsFirst(m, now, x);
      } else {
        RowPrecedesTotal(rx, ry);
        forall k | k in m && k != y ensures RowPrecedes(ry, RowOf(m, k, now)) {
          if k != x {
            assert RowOf(rest, k, now) == RowOf(m, k, now) && RowOf(rest, y, now) == ry;
          }
        }
        assert IsFirst(m, now, y);
      }
    }
  }

  /** The row order is transitive. */
  lemma RowPrecedesTransitive(a: Row, b: Row, c: Row)
    requires RowPrecedes(a, b) && RowPrecedes(b, c)
    ensures RowPrecedes(a, c)
  {
    if a.daysUnused == b.daysUnused == c.daysUnused {
      NameBeforeTransitive(a.name, b.name, c.name);
    }
  }

  /** Rows with different names are ordered one way or the other. */
  lemma RowPrecedesTotal(a: Row, b: Row)
    requires a.name != b.name
    ensures RowPrecedes(a, b) || RowPrecedes(b, a)
  {
    NameBeforeTotal(a.name, b.name);
  }

  lemma FirstUnique(m: Store, now: int)
    ensures forall a, b :: a in m && b in m && IsFirst(m, now, a) && IsFirst(m, now, b) ==> a == b
  {
    PrecedesStrictTotal();
  }

  /**
   * The rows of `SELECT ... FROM packages ORDER BY days_unused DESC, name`:
   * one row per stored package, showing its stored columns and
   * `days_unused`, strictly ordered by more days first and then by name.
   */
  function Ordered(m: Store, now: int): (rows: seq<Row>)
    ensures |rows| == |m|
    decreases |m|
  {
    if |m| == 0 then []
    else
      FirstExists(m, now);
      FirstUnique(m, now);
      var n :| n in m && IsFirst(m, now, n);
      var rest := m - {n};
      assert rest.Keys == m.Keys - {n};
      [RowOf(m, n, now)] + Ordered(rest, now)
  }

  /** The ordered rows are the store's rows, one per package, strictly sorted. */
  lemma {:induction false} OrderedSorted(m: Store, now: int)
    ensures OrderedRows(m, now, Ordered(m, now))
    decreases |m|
  {
    if |m| > 0 {
      FirstExists(m, now);
      FirstUnique(m, now);
      var n :| n in m && IsFirst(m, now, n);
      var rest := m - {n};
      assert rest.Keys == m.Keys - {n};
      assert Ordered(m, now) == [RowOf(m, n, now)] + Ordered(rest, now);
      OrderedSorted(rest, now);
      OrderedCons(m, now, n, Ordered(rest, now));
    }
  }

  /** `rows` lists the store `m` in `ORDER BY days_unused DESC, name` order. */
  predicate OrderedRows(m: Store, now: int, rows: seq<Row>) {
    && |rows| == |m|
    && (forall i :: 0 <= i < |rows| ==> rows[i].name in m && rows[i] == RowOf(m, rows[i].name, now))
    && (set r | r in rows :: r.name) == m.Keys
    && (forall i, j :: 0 <= i < j < |rows| ==> RowPrecedes(rows[i], rows[j]))
  }

  lemma OrderedCons(m: Store, now: int, n: string, tail: seq<Row>)
    requires n in m && IsFirst(m, now, n)
    requires OrderedRows(m - {n}, now, tail)
    ensures OrderedRows(m, now, [RowOf(m, n, now)] + tail)
  {
    var head := RowOf(m, n, now);
    ConsLength(m, n, head, tail);
    TailRows(m, now, n, tail);
    ConsRows(m, now, head, tail);
    ConsNames(m, n, head, tail);
    HeadFirst(m, now, n, tail);
    ConsSorted(head, tail);
  }

  lemma ConsLength(m: Store, n: string, head: Row, tail: seq<Row>)
    requires n in m && |tail| == |m - {n}|
    ensures |[head] + tail| == |m|
  {
    var rest := m - {n};
    assert rest.Keys == m.Keys - {n};
    assert |rest| == |m| - 1;
  }

  lemma ConsNames(m: Store, n: string, head: Row, tail: seq<Row>)
    requires n in m && head.name == n && (set r | r in tail :: r.name) == (m - {n}).Keys
    ensures (set r | r in [head] + tail :: r.name) == m.Keys
  {
    NamesCons(head, tail);
    assert (m - {n}).Keys == m.Keys - {n};
  }

  lemma ConsRows(m: Store, now: int, head: Row, tail: seq<Row>)
    requires head.name in m && head == RowOf(m, head.name, now)
    requires forall i :: 0 <= i < |tail| ==> tail[i].name in m && tail[i] == RowOf(m, tail[i].name, now)
    ensures forall i :: 0 <= i < |[head] + tail| ==>
              ([head] + tail)[i].name in m && ([head] + tail)[i] == RowOf(m, ([head] + tail)[i].name, now)
  {
    var rows := [head] + tail;
    forall i | 0 <= i < |rows| ensures rows[i].name in m && rows[i] == RowOf(m, rows[i].name, now) {
      if i > 0 { assert rows[i] == tail[i - 1]; }
    }
  }

  /** The first stored name comes before every row of the rest. */
  lemma HeadFirst(m: Store, now: int, n: string, tail: seq<Row>)
    requires n in m && IsFirst(m, now, n)
    requires forall i :: 0 <= i < |tail| ==> tail[i].name in m && tail[i].name != n && tail[i] == RowOf(m, tail[i].name, now)
    ensures forall i :: 0 <= i < |tail| ==> RowPrecedes(RowOf(m, n, now), tail[i])
  {
    forall i | 0 <= i < |tail| ensures RowPrecedes(RowOf(m, n, now), tail[i]) {
      assert tail[i].name in m && tail[i].name != n;
    }
  }

  /** The rows of the rest of the store are rows of the whole store, none of them for `n`. */
  lemma TailRows(m: Store, now: int, n: string, tail: seq<Row>)
    requires n in m
    requires forall i :: 0 <= i < |tail| ==> tail[i].name in m - {n} && tail[i] == RowOf(m - {n}, tail[i].name, now)
    ensures forall i :: 0 <= i < |tail| ==> tail[i].name in m && tail[i].name != n && tail[i] == RowOf(m, tail[i].name, now)
  {
    forall i | 0 <= i < |tail|
      ensures tail[i].name in m && tail[i].name != n && tail[i] == RowOf(m, tail[i].name, now)
    {
      var k := tail[i].name;
      assert k in m - {n};
      assert (m - {n})[k] == m[k];
    }
  }

  lemma NamesCons(head: Row, tail: seq<Row>)
    ensures (set r | r in [head] + tail :: r.name) == {head.name} + (set r | r in tail :: r.name)
  {
    var rows := [head] + tail;
    var all := set r | r in rows :: r.name;
    var rest := set r | r in tail :: r.name;
    forall x | x in all ensures x in {head.name} + rest {
      var r :| r in rows && r.name == x;
      if r != head { assert r in tail; }
    }
    forall x | x in rest ensures x in all {
      var r :| r in tail && r.name == x;
      assert r in rows;
    }
    assert head in rows;
  }

  lemma ConsSorted(head: Row, tail: seq<Row>)
    requires forall i :: 0 <= i < |tail| ==> RowPrecedes(head, tail[i])
    requires forall i, j :: 0 <= i < j < |tail| ==> RowPrecedes(tail[i], tail[j])
    ensures forall i, j :: 0 <= i < j < |[head] + tail| ==> RowPrecedes(([head] + tail)[i], ([head] + tail)[j])
  {
    var rows := [head] + tail;
    forall i, j | 0 <= i < j < |rows| ensures RowPrecedes(rows[i], rows[j]) {
      if i == 0 {
        assert rows[j] == tail[j - 1];
      } else {
        assert rows[i] == tail[i - 1] && rows[j] == tail[j - 1];
      }
    }
  }

  /** Two strictly ordered lists of the same rows are the same list: the order is a function of the store. */
  lemma {:induction false} SortedUnique(xs: seq<Row>, ys: seq<Row>)
    requires forall i, j :: 0 <= i < j < |xs| ==> RowPrecedes(xs[i], xs[j])
    requires forall i, j :: 0 <= i < j < |ys| ==> RowPrecedes(ys[i], ys[j])
    requires |xs| == |ys| && forall r :: r in xs <==> r in ys
    ensures xs == ys
  {
    PrecedesStrictTotal();
    if |xs| > 0 {
      assert xs[0] in ys && ys[0] in xs;
      var j :| 0 <= j < |ys| && ys[j] == xs[0];
      var i :| 0 <= i < |xs| && xs[i] == ys[0];
      if j != 0 {
        assert false;
      }
      assert xs[0] == ys[0];
      forall r ensures r in xs[1..] <==> r in ys[1..] {
        if r in xs[1..] {
          var a :| 1 <= a < |xs| && xs[a] == r;
          assert RowPrecedes(xs[0], r);
          assert r != xs[0];
          assert r in xs;
          var b :| 0 <= b < |ys| && ys[b] == r;
          assert b != 0;
          assert ys[1..][b - 1] == r;
        }
        if r in ys[1..] {
          var a :| 1 <= a < |ys| && ys[a] == r;
          assert RowPrecedes(ys[0], r);
          assert r != ys[0];
          assert r in ys;
          var b :| 0 <= b < |xs| && xs[b] == r;
          assert b != 0;
          assert xs[1..][b - 1] == r;
        }
      }
      SortedUnique(xs[1..], ys[1..]);
      assert xs == [xs[0]] + xs[1..] && ys == [ys[0]] + ys[1..];
    }
  }

  /** Only one list of rows is in that order: any list that is must be the query's result. */
  lemma OrderedUnique(m: Store, now: int, rows: seq<Row>)
    requires OrderedRows(m, now, rows)
    ensures rows == Ordered(m, now)
  {
    var result := Ordered(m, now);
    OrderedSorted(m, now);
    SameRows(m, now, rows, result);
    SameRows(m, now, result, rows);
    SortedUnique(rows, result);
  }

  /** Two listings of one store hold the same rows. */
  lemma SameRows(m: Store, now: int, xs: seq<Row>, ys: seq<Row>)
    requires OrderedRows(m, now, xs) && OrderedRows(m, now, ys)
    ensures forall r :: r in xs ==> r in ys
  {
    forall r | r in xs ensures r in ys {
      var i :| 0 <= i < |xs| && xs[i] == r;
      assert r.name in (set x | x in ys :: x.name);
      var x :| x in ys && x.name == r.name;
      var j :| 0 <= j < |ys| && ys[j] == x;
    }
  }

  /** Ties on `days_unused` are broken by name: ten, ten and five days give A, B, C. */
  lemma OrderingExample(now: int, m: Store)
    requires m.Keys == {"A", "B", "C"}
    requires m["A"].lastSeen == At(now - 10 * SecondsPerDay) && m["B"].lastSeen == At(now - 10 * SecondsPerDay)
    requires m["C"].lastSeen == At(now - 5 * SecondsPerDay)
    ensures var rows := Ordered(m, now);
            |rows| == 3 && rows[0].name == "A" && rows[1].name == "B" && rows[2].name == "C"
  {
    var expected := ExampleRows(now, m);
    OrderedUnique(m, now, expected);
  }

  lemma ExampleRows(now: int, m: Store) returns (expected: seq<Row>)
    requires m.Keys == {"A", "B", "C"}
    requires m["A"].lastSeen == At(now - 10 * SecondsPerDay) && m["B"].lastSeen == At(now - 10 * SecondsPerDay)
    requires m["C"].lastSeen == At(now - 5 * SecondsPerDay)
    ensures OrderedRows(m, now, expected)
    ensures |expected| == 3 && expected[0].name == "A" && expected[1].name == "B" && expected[2].name == "C"
  {
    var ra, rb, rc := RowOf(m, "A", now), RowOf(m, "B", now), RowOf(m, "C", now);
    assert ra.daysUnused == 10 && rb.daysUnused == 10 && rc.daysUnused == 5;
    expected := [ra, rb, rc];
    ExampleSorted(ra, rb, rc);
    ExampleNames(ra, rb, rc);
    assert |m| == 3 by {
      assert "A" != "B" && "B" != "C" && "A" != "C";
      assert |m.Keys| == 3;
    }
    forall i | 0 <= i < 3 ensures expected[i].name in m && expected[i] == RowOf(m, expected[i].name, now) {
      if i == 0 { assert expected[i] == ra; }
      else if i == 1 { assert expected[i] == rb; }
      else { assert expected[i] == rc; }
    }
  }

  lemma ExampleSorted(ra: Row, rb: Row, rc: Row)
    requires ra.name == "A" && rb.name == "B" && rc.name == "C"
    requires ra.daysUnused == 10 && rb.daysUnused == 10 && rc.daysUnused == 5
    ensures forall i, j :: 0 <= i < j < |[ra, rb, rc]| ==> RowPrecedes([ra, rb, rc][i], [ra, rb, rc][j])
  {
    assert NameBefore("A", "B") by { assert "A"[0] == 'A' && "B"[0] == 'B'; }
    var rows := [ra, rb, rc];
    forall i, j | 0 <= i < j < 3 ensures RowPrecedes(rows[i], rows[j]) {
      if i == 0 && j == 1 { assert rows[i] == ra && rows[j] == rb; }
      else if i == 0 { assert rows[i] == ra && rows[j] == rc; }
      else { assert rows[i] == rb && rows[j] == rc; }
    }
  }

  lemma ExampleNames(ra: Row, rb: Row, rc: Row)
    requires ra.name == "A" && rb.name == "B" && rc.name == "C"
    ensures (set r | r in [ra, rb, rc] :: r.name) == {"A", "B", "C"}
  {
    var rows := [ra, rb, rc];
    assert ra in rows && rb in rows && rc in rows;
  }

  /** The `unused_week` query's rows: a day difference above 7; 'Never' rows fail the test (NULL). */
  function UnusedWeekNames(m: Store, now: int): set<string> {
    set n | n in m && Exceeds(DayDifference(m[n].lastSeen, now), WeekDays)
  }

  /** The `dusty_explicit` query's rows: explicit, a day difference above 30, and not 'Never'. */
  function DustyExplicitNames(m: Store, now: int): set<string> {
    set n | n in m && m[n].explicitInstall && Exceeds(DayDifference(m[n].lastSeen, now), FullDustDays)
            && m[n].lastSeen != Never
  }

  datatype Stats = Stats(total: nat, unusedWeek: nat, dustyExplicit: nat)

  /** The three summary counts; every dusty explicit package is also unused for a week. */
  function Summary(m: Store, now: int): (s: Stats)
    ensures s.total == |m|
    ensures s.unusedWeek == |UnusedWeekNames(m, now)| && s.dustyExplicit == |DustyExplicitNames(m, now)|
    ensures s.dustyExplicit <= s.unusedWeek <= s.total
  {
    var week := UnusedWeekNames(m, now);
    var dusty := DustyExplicitNames(m, now);
    assert dusty <= week <= m.Keys;
    SubsetCardinality(dusty, week);
    SubsetCardinality(week, m.Keys);
    Stats(|m|, |week|, |dusty|)
  }

  lemma SubsetCardinality(a: set<string>, b: set<string>)
    requires a <= b
    ensures |a| <= |b|
  {
    assert b == a + (b - a);
  }

  /**
   * The counts read the same rows as the list: `unused_week` counts the
   * entries with a real timestamp and more than 7 days, `dusty_explicit`
   * the entries tagged safe that have a real timestamp.
   */
  lemma CountsMatchList(m: Store, now: int)
    ensures UnusedWeekNames(m, now) == set n | n in m && ViewOf(RowOf(m, n, now)).lastSeen != Never
                                                     && ViewOf(RowOf(m, n, now)).daysUnused > WeekDays
    ensures DustyExplicitNames(m, now) == set n | n in m && ViewOf(RowOf(m, n, now)).safety == Safe
                                                        && ViewOf(RowOf(m, n, now)).lastSeen != Never
  {
  }

  /**
   * A 'Never' row shows 999 days in the list, and is tagged safe when it
   * is explicit, yet the NULL day difference keeps it out of both counts.
   */
  lemma NeverAsymmetry(m: Store, now: int, name: string)
    requires name in m && m[name].lastSeen == Never
    ensures ViewOf(RowOf(m, name, now)).daysUnused == NeverDays
    ensures ViewOf(RowOf(m, name, now)).safety == Safe <==> m[name].explicitInstall
    ensures name !in UnusedWeekNames(m, now) && name !in DustyExplicitNames(m, now)
  {
  }

  lemma SafetyExamples()
    ensures SafetyOf(true, 31) == Safe && SafetyOf(true, 29) == Risky && SafetyOf(false, 400) == Risky
  {
  }

  /** 400 days unused: the score is saturated, the day count is not clamped. */
  lemma LongUnused(now: int)
    ensures var d := DaysUnused(At(now - 400 * SecondsPerDay), now); d == 400 && DustPercentage(d) == 100.0
  {
  }
}
