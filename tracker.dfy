/**
 * The `DustTracker` object: the two tables it updates in place, and its
 * operations — the inventory scan, the preserving upsert, the process scan,
 * the statistics view — plus the scan cycle run by `/api/scan` and
 * `--scan-only`. The outputs of pacman and `/proc` arrive as parameters:
 * `None` stands for a command that could not be run at all.
 */
module Tracker {
  import opened Wrappers
  import opened Text
  import opened PackageStore
  import opened Inventory
  import opened Correlation
  import opened DustAnalyzer

  /** How `scan_installed_packages` ends: it returns True or False, or a parse exception escapes it. */
  datatype InventoryOutcome = Returned(ok: bool) | Raised(error: ParseError)

  /** What a scan cycle reports: the conjunction of the two phases, or the exception that ended it. */
  datatype CycleOutcome = Reported(success: bool) | Aborted(error: ParseError)

  /** The exception `scan_installed_packages` lets escape, if any: only a parse of pacman's answer can raise. */
  function InventoryError(explicitOut: Option<set<string>>, pacmanInfo: Option<seq<string>>): Option<ParseError> {
    if explicitOut.Some? && pacmanInfo.Some? && Parse(pacmanInfo.value).Err? then Some(Parse(pacmanInfo.value).error)
    else None
  }

  /** `packages` after `scan_installed_packages` returned: reconciled when both pacman calls answered. */
  function Reconciled(m: Store, explicitOut: Option<set<string>>, pacmanInfo: Option<seq<string>>, now: int): Store {
    if explicitOut.Some? && pacmanInfo.Some? && Parse(pacmanInfo.value).Ok? then
      SaveAll(m, Parse(pacmanInfo.value).value, explicitOut.value, now)
    else m
  }

  /** `packages` after `scan_running_processes`. */
  function Correlated(m: Store, lookups: Option<seq<Option<string>>>, now: int): Store {
    if lookups.Some? then Stamp(m, Resolved(lookups.value), now) else m
  }

  /** The rows `scan_running_processes` appends to `usage_events`. */
  function Logged(lookups: Option<seq<Option<string>>>, now: int): seq<Event> {
    if lookups.Some? then EventsFor(Resolved(lookups.value), now) else []
  }

  class DustTracker {
    /** The `packages` table, keyed by `name`. */
    var packages: Store
    /** The `usage_events` table, in insertion order. */
    var events: seq<Event>

    /** Opens the database with whatever the two tables already hold (both empty on a first run). */
    constructor (stored: Store, log: seq<Event>)
      ensures packages == stored && events == log
    {
      packages := stored;
      events := log;
    }

    /** `_save_package`: upsert one parsed record, keeping a stored `last_seen`. */
    method SavePackage(info: Record, isExplicit: bool, now: int)
      modifies this
      ensures packages == Save(old(packages), info, isExplicit, now)
      ensures events == old(events)
    {
      var kept := if info.name in packages then packages[info.name].lastSeen else At(now);
      packages := packages[info.name := Package(info.description.GetOr(""), info.installDate.GetOr(""), isExplicit, kept)];
    }

    /**
     * `scan_installed_packages`: parse `pacman -Qi` line by line and upsert
     * each record. A failed pacman call returns False; an exception from the
     * parser escapes before the commit, which leaves the table as it was.
     */
    method ScanInstalledPackages(explicitOut: Option<set<string>>, pacmanInfo: Option<seq<string>>, now: int)
      returns (r: InventoryOutcome)
      modifies this
      ensures events == old(events)
      ensures InventoryError(explicitOut, pacmanInfo).Some? ==>
                r == Raised(InventoryError(explicitOut, pacmanInfo).value) && packages == old(packages)
      ensures InventoryError(explicitOut, pacmanInfo).None? ==>
                r == Returned(explicitOut.Some? && pacmanInfo.Some?)
                && packages == Reconciled(old(packages), explicitOut, pacmanInfo, now)
    {
      if explicitOut.None? || pacmanInfo.None? {
        return Returned(false);
      }
      var explicitSet := explicitOut.value;
      var lines := pacmanInfo.value;
      var snapshot := packages;  // what a rollback restores
      var current := Fields(None, None, None);
      ghost var done: seq<Record> := [];
      var i := 0;
      while i < |lines|
        invariant 0 <= i <= |lines|
        invariant Run(lines[..i]) == Ok(ParseState(done, current))
        invariant packages == SaveAll(snapshot, done, explicitSet, now)
        invariant events == old(events)
      {
        var line := lines[i];
        RunNext(lines, i);
        ghost var before := ParseState(done, current);
        if IsNameLine(line) {
          if !current.IsEmpty() {
            if current.name.None? {
              RaisedAt(lines, i, MissingName);
              packages := snapshot;
              return Raised(MissingName);
            }
            var rec := Record(current.name.value, current.description, current.installDate);
            SavePackage(rec, rec.name in explicitSet, now);
            assert (done + [rec])[..|done|] == done;
            done := done + [rec];
          }
          assert Flush(before) == Ok(done);
          match ValueAfter(line, ':')
          case None =>
            RaisedAt(lines, i, MissingColon(line));
            packages := snapshot;
            return Raised(MissingColon(line));
          case Some(v) =>
            current := Fields(Some(v), None, None);
        } else if StartsWith(line, "Description") {
          match ValueAfter(line, ':')
          case None =>
            RaisedAt(lines, i, MissingColon(line));
            packages := snapshot;
            return Raised(MissingColon(line));
          case Some(v) =>
            current := current.(description := Some(v));
        } else if StartsWith(line, "Install Date") {
          match ValueAfter(line, ':')
          case None =>
            RaisedAt(lines, i, MissingColon(line));
            packages := snapshot;
            return Raised(MissingColon(line));
          case Some(v) =>
            current := current.(installDate := Some(v));
        }
        assert Run(lines[..i + 1]) == Ok(ParseState(done, current));
        i := i + 1;
      }
      assert lines[..|lines|] == lines;
      if !current.IsEmpty() {
        if current.name.None? {
          packages := snapshot;
          return Raised(MissingName);
        }
        var rec := Record(current.name.value, current.description, current.installDate);
        SavePackage(rec, rec.name in explicitSet, now);
        assert (done + [rec])[..|done|] == done;
        done := done + [rec];
      }
      assert Parse(lines) == Ok(done);
      return Returned(true);
    }

    /**
     * `scan_running_processes`: for each executable, in order, whose owner
     * lookup answered with at least five tokens, stamp the owning package's
     * row (if there is one) and log one `process_scan` event. Failed
     * lookups are skipped; an enumeration that failed returns False.
     */
    method ScanRunningProcesses(lookups: Option<seq<Option<string>>>, now: int) returns (ok: bool)
      modifies this
      ensures ok == lookups.Some?
      ensures packages == Correlated(old(packages), lookups, now)
      ensures events == old(events) + Logged(lookups, now)
    {
      if lookups.None? {
        assert events == old(events) + [];
        return false;
      }
      var outputs := lookups.value;
      var i := 0;
      while i < |outputs|
        invariant 0 <= i <= |outputs|
        invariant packages == Stamp(old(packages), Resolved(outputs[..i]), now)
        invariant events == old(events) + EventsFor(Resolved(outputs[..i]), now)
      {
        ResolvedSnoc(outputs, i);
        ghost var names := Resolved(outputs[..i]);
        var owner := OwnerOf(outputs[i]);  // None: the lookup raised CalledProcessError or IndexError
        if owner.Some? {
          var packageName := owner.value;
          StampSnoc(old(packages), names, packageName, now);
          if packageName in packages {
            packages := packages[packageName := packages[packageName].(lastSeen := At(now))];
          }
          EventsForSnoc(old(events), names, packageName, now);
          events := events + [Event(packageName, ProcessScan, now)];
        }
        i := i + 1;
      }
      assert outputs[..|outputs|] == outputs;
      return true;
    }

    /**
     * `get_package_stats`: the package list in `days_unused DESC, name`
     * order, one entry per stored package with its derived fields, and the
     * three counts.
     */
    method GetPackageStats(now: int) returns (list: seq<PackageView>, stats: Stats)
      ensures list == ViewsOf(Ordered(packages, now))
      ensures stats == Summary(packages, now)
    {
      var m := packages;
      var rows := Ordered(m, now);
      list := [];
      var i := 0;
      while i < |rows|
        invariant 0 <= i <= |rows|
        invariant list == ViewsOf(rows[..i])
      {
        assert rows[..i + 1][..i] == rows[..i];
        list := list + [ViewOf(rows[i])];
        i := i + 1;
      }
      assert rows[..|rows|] == rows;
      stats := Summary(m, now);
    }

    /**
     * One scan cycle, as `/api/scan` and `--scan-only` run it: the
     * inventory scan, then the process scan, reporting the conjunction of
     * their results. An exception from the inventory parser ends the cycle
     * before the process scan. Each phase reads the clock on its own:
     * `invNow` for the inventory's upserts, `procNow` for the process scan.
     */
    method ScanCycle(explicitOut: Option<set<string>>, pacmanInfo: Option<seq<string>>,
                     lookups: Option<seq<Option<string>>>, invNow: int, procNow: int) returns (r: CycleOutcome)
      modifies this
      ensures InventoryError(explicitOut, pacmanInfo).Some? ==>
                r == Aborted(InventoryError(explicitOut, pacmanInfo).value)
                && packages == old(packages) && events == old(events)
      ensures InventoryError(explicitOut, pacmanInfo).None? ==>
                r == Reported(explicitOut.Some? && pacmanInfo.Some? && lookups.Some?)
                && packages == Correlated(Reconciled(old(packages), explicitOut, pacmanInfo, invNow), lookups, procNow)
                && events == old(events) + Logged(lookups, procNow)
    {
      var pkgResult := ScanInstalledPackages(explicitOut, pacmanInfo, invNow);
      if pkgResult.Raised? {
        return Aborted(pkgResult.error);
      }
      var procResult := ScanRunningProcesses(lookups, procNow);
      return Reported(pkgResult.ok && procResult);
    }
  }

  /**
   * The package list of `get_package_stats`: one entry per stored package,
   * carrying that package's derived fields, in `days_unused DESC, name` order.
   */
  predicate ListedViews(m: Store, now: int, list: seq<PackageView>) {
    && |list| == |m|
    && (forall i :: 0 <= i < |list| ==> list[i].name in m && list[i] == ViewOf(RowOf(m, list[i].name, now)))
    && (set v | v in list :: v.name) == m.Keys
    && (forall i, j :: 0 <= i < j < |list| ==> ViewPrecedes(list[i], list[j]))
  }

  /** The list entries built from `rows`, one per row, in order. */
  function ViewsOf(rows: seq<Row>): (list: seq<PackageView>)
    ensures |list| == |rows|
  {
    if |rows| == 0 then [] else ViewsOf(rows[..|rows| - 1]) + [ViewOf(rows[|rows| - 1])]
  }

  lemma {:induction false} ViewsOfAt(rows: seq<Row>, k: int)
    requires 0 <= k < |rows|
    ensures ViewsOf(rows)[k] == ViewOf(rows[k])
  {
    if k < |rows| - 1 {
      var p := rows[..|rows| - 1];
      ViewsOfAt(p, k);
      assert p[k] == rows[k];
    }
  }

  /** Every entry of the package list is the view of the row at its position. */
  lemma ViewsOfEach(rows: seq<Row>)
    ensures forall k :: 0 <= k < |rows| ==> ViewsOf(rows)[k] == ViewOf(rows[k])
  {
    forall k | 0 <= k < |rows| ensures ViewsOf(rows)[k] == ViewOf(rows[k]) {
      ViewsOfAt(rows, k);
    }
  }

  /** The entries carry the names of the rows they come from. */
  lemma ViewsOfNames(rows: seq<Row>)
    ensures (set v | v in ViewsOf(rows) :: v.name) == (set r | r in rows :: r.name)
  {
    var list := ViewsOf(rows);
    ViewsOfEach(rows);
    var a := set v | v in list :: v.name;
    var b := set r | r in rows :: r.name;
    forall x | x in a ensures x in b {
      var v :| v in list && v.name == x;
      var k :| 0 <= k < |list| && list[k] == v;
      assert rows[k] in rows;
    }
    forall x | x in b ensures x in a {
      var r :| r in rows && r.name == x;
      var k :| 0 <= k < |rows| && rows[k] == r;
      assert list[k] in list;
    }
  }

  /**
   * The list `get_package_stats` builds from the ordered rows has one entry
   * per stored package with that package's derived fields, and keeps the
   * `days_unused DESC, name` order.
   */
  lemma PackageList(m: Store, now: int)
    ensures ListedViews(m, now, ViewsOf(Ordered(m, now)))
  {
    OrderedSorted(m, now);
    ViewsOfOrderedRows(m, now, Ordered(m, now));
  }

  lemma ViewsOfOrderedRows(m: Store, now: int, rows: seq<Row>)
    requires OrderedRows(m, now, rows)
    ensures ListedViews(m, now, ViewsOf(rows))
  {
    var list := ViewsOf(rows);
    ViewsOfEach(rows);
    ViewsOfNames(rows);
    forall i, j | 0 <= i < j < |list| ensures ViewPrecedes(list[i], list[j]) {
      assert RowPrecedes(rows[i], rows[j]);
    }
  }

  /**
   * Across a whole cycle, `last_seen` is written only at a first insert,
   * with the inventory phase's clock, and by the process scan, with its own
   * clock: a package whose owner the process scan resolved ends with
   * `procNow`; any other keeps its stored `last_seen`, or `invNow` when the
   * inventory scan inserted it. With clocks that do not run backward, no
   * `last_seen` moves backward.
   */
  lemma CycleLastSeen(m: Store, explicitOut: Option<set<string>>, pacmanInfo: Option<seq<string>>,
                      lookups: Option<seq<Option<string>>>, invNow: int, procNow: int, name: string)
    requires name in Correlated(Reconciled(m, explicitOut, pacmanInfo, invNow), lookups, procNow)
    ensures var seen := Correlated(Reconciled(m, explicitOut, pacmanInfo, invNow), lookups, procNow)[name].lastSeen;
            var stamped := lookups.Some? && name in Resolved(lookups.value);
            && (stamped ==> seen == At(procNow))
            && (!stamped && name in m ==> seen == m[name].lastSeen)
            && (!stamped && name !in m ==> seen == At(invNow))
            && (name in m && NoLater(m[name].lastSeen, At(procNow)) ==> NoLater(m[name].lastSeen, seen))
            && (name !in m && invNow <= procNow ==> NoLater(At(invNow), seen))
  {
    var r := Reconciled(m, explicitOut, pacmanInfo, invNow);
    assert name in r;
    if explicitOut.Some? && pacmanInfo.Some? && Parse(pacmanInfo.value).Ok? {
      SaveAllKeepsLastSeen(m, Parse(pacmanInfo.value).value, explicitOut.value, invNow, name);
    }
  }
}
