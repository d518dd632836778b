/**
 * The two tables of the tracker's database, as values: `packages`, keyed by
 * name, and the append-only `usage_events` log; and the two ways rows of
 * `packages` change: the preserving upsert of `_save_package` and the
 * `last_seen` stamp of the process scan.
 */
module PackageStore {
  import opened Wrappers

  /** The `last_seen` column: a scan timestamp (seconds), or the literal 'Never'. */
  datatype LastSeen = Never | At(time: int)

  /** A row of `packages`, without its key `name`. */
  datatype Package = Package(description: string, installDate: string, explicitInstall: bool, lastSeen: LastSeen)

  /** A row of `usage_events` (its AUTOINCREMENT id is its position in the log). */
  datatype Event = Event(packageName: string, eventType: string, timestamp: int)

  type Store = map<string, Package>

  const ProcessScan: string := "process_scan"

  /**
   * What the inventory parser hands to `_save_package` for one package:
   * the description and install date are absent when pacman printed no
   * such line for it.
   */
  datatype Record = Record(name: string, description: Option<string>, installDate: Option<string>)

  /** `last_seen` ordered in time, 'Never' before every timestamp. */
  predicate NoLater(a: LastSeen, b: LastSeen) {
    a.Never? || (b.At? && a.time <= b.time)
  }

  /**
   * The replacing insert of `_save_package`, which falls back to `now` only
   * when no stored `last_seen` exists: the row for `name` gets the new
   * metadata; a name already stored keeps its `last_seen`, a new one is
   * stamped `now`; no other row changes.
   */
  function Upsert(m: Store, name: string, description: string, installDate: string, explicit: bool, now: int): (r: Store)
    ensures r.Keys == m.Keys + {name}
    ensures forall n :: n in m && n != name ==> r[n] == m[n]
    ensures r[name].description == description && r[name].installDate == installDate
    ensures r[name].explicitInstall == explicit
    ensures name in m ==> r[name].lastSeen == m[name].lastSeen
    ensures name !in m ==> r[name].lastSeen == At(now)
  {
    var kept := if name in m then m[name].lastSeen else At(now);
    m[name := Package(description, installDate, explicit, kept)]
  }

  /** `_save_package(conn, pkg_info, is_explicit)`: a missing field is stored as ''. */
  function Save(m: Store, rec: Record, explicit: bool, now: int): Store {
    Upsert(m, rec.name, rec.description.GetOr(""), rec.installDate.GetOr(""), explicit, now)
  }

  /** The package row `rec` leaves behind when `last_seen` ends up as `seen`. */
  function RowFor(rec: Record, explicitSet: set<string>, seen: LastSeen): Package {
    Package(rec.description.GetOr(""), rec.installDate.GetOr(""), rec.name in explicitSet, seen)
  }

  function Names(recs: seq<Record>): set<string> {
    set r | r in recs :: r.name
  }

  /** The upserts of one inventory scan, in order, each flagged by membership in `explicitSet`. */
  function SaveAll(m: Store, recs: seq<Record>, explicitSet: set<string>, now: int): (r: Store)
    ensures r.Keys == m.Keys + Names(recs)
  {
    if recs == [] then m
    else
      var k := |recs| - 1;
      assert Names(recs) == Names(recs[..k]) + {recs[k].name} by {
        assert recs == recs[..k] + [recs[k]];
      }
      Save(SaveAll(m, recs[..k], explicitSet, now), recs[k], recs[k].name in explicitSet, now)
  }

  /** `k` is the last position of `recs` that carries `name`. */
  predicate LastFor(recs: seq<Record>, name: string, k: int) {
    0 <= k < |recs| && recs[k].name == name && forall j :: k < j < |recs| ==> recs[j].name != name
  }

  /** Reconciling never moves a stored `last_seen`, and stamps a newly stored name with `now`. */
  lemma {:induction false} SaveAllKeepsLastSeen(m: Store, recs: seq<Record>, explicitSet: set<string>, now: int, name: string)
    requires name in SaveAll(m, recs, explicitSet, now)
    ensures SaveAll(m, recs, explicitSet, now)[name].lastSeen == if name in m then m[name].lastSeen else At(now)
  {
    if recs != [] {
      var k := |recs| - 1;
      var prev := SaveAll(m, recs[..k], explicitSet, now);
      if name in prev {
        SaveAllKeepsLastSeen(m, recs[..k], explicitSet, now, name);
      }
    }
  }

  /** A name the inventory does not mention keeps its row. */
  lemma {:induction false} SaveAllUntouched(m: Store, recs: seq<Record>, explicitSet: set<string>, now: int, name: string)
    requires name in m && name !in Names(recs)
    ensures SaveAll(m, recs, explicitSet, now)[name] == m[name]
  {
    if recs != [] {
      var k := |recs| - 1;
      assert recs[k] in recs;
      assert Names(recs[..k]) <= Names(recs) by {
        forall r | r in recs[..k] ensures r in recs { }
      }
      SaveAllUntouched(m, recs[..k], explicitSet, now, name);
    }
  }

  /**
   * A name the inventory mentions gets the metadata of its LAST record
   * (last write wins), the explicit flag by membership in `explicitSet`,
   * and keeps its stored `last_seen`, or `now` if it was not stored before.
   */
  lemma {:induction false} SaveAllLastWins(m: Store, recs: seq<Record>, explicitSet: set<string>, now: int, name: string, k: int)
    requires LastFor(recs, name, k)
    ensures SaveAll(m, recs, explicitSet, now)[name] == RowFor(recs[k], explicitSet, if name in m then m[name].lastSeen else At(now))
  {
    var last := |recs| - 1;
    var prev := SaveAll(m, recs[..last], explicitSet, now);
    if k == last {
      if name in prev {
        SaveAllKeepsLastSeen(m, recs[..last], explicitSet, now, name);
      }
    } else {
      assert LastFor(recs[..last], name, k);
      SaveAllLastWins(m, recs[..last], explicitSet, now, name, k);
    }
  }

  /** A name that occurs in `recs` has a last occurrence. */
  lemma {:induction false} LastExists(recs: seq<Record>, name: string)
    requires name in Names(recs)
    ensures exists k :: LastFor(recs, name, k)
  {
    var k := |recs| - 1;
    if recs[k].name != name {
      assert recs == recs[..k] + [recs[k]];
      assert name in Names(recs[..k]);
      LastExists(recs[..k], name);
      var j :| LastFor(recs[..k], name, j);
      assert LastFor(recs, name, j);
    } else {
      assert LastFor(recs, name, k);
    }
  }

  /**
   * Reconciling the same inventory twice in a row changes nothing the
   * second time, whatever the clock reads then: metadata is rewritten with
   * the same values and every `last_seen` is preserved.
   */
  lemma SaveAllIdempotent(m: Store, recs: seq<Record>, explicitSet: set<string>, now1: int, now2: int)
    ensures SaveAll(SaveAll(m, recs, explicitSet, now1), recs, explicitSet, now2) == SaveAll(m, recs, explicitSet, now1)
  {
    var once := SaveAll(m, recs, explicitSet, now1);
    var twice := SaveAll(once, recs, explicitSet, now2);
    forall n | n in once
      ensures twice[n] == once[n]
    {
      if n in Names(recs) {
        LastExists(recs, n);
        var k :| LastFor(recs, n, k);
        SaveAllLastWins(m, recs, explicitSet, now1, n, k);
        SaveAllLastWins(once, recs, explicitSet, now2, n, k);
      } else {
        SaveAllUntouched(once, recs, explicitSet, now2, n);
      }
    }
  }

  /**
   * `UPDATE packages SET last_seen = now WHERE name = ?` for every name of
   * `names`: the named rows that exist get `last_seen == now`; every other
   * row, and every other column, stays as it was; no row is added.
   */
  function Stamp(m: Store, names: seq<string>, now: int): (r: Store)
    ensures r.Keys == m.Keys
    ensures forall n :: n in m ==> r[n].(lastSeen := m[n].lastSeen) == m[n]
    ensures forall n :: n in m && n in names ==> r[n].lastSeen == At(now)
    ensures forall n :: n in m && n !in names ==> r[n] == m[n]
  {
    map n | n in m :: if n in names then m[n].(lastSeen := At(now)) else m[n]
  }

  /** Stamping one more name is one more UPDATE of that row, when it exists. */
  lemma StampSnoc(m: Store, names: seq<string>, name: string, now: int)
    ensures var s := Stamp(m, names, now);
            Stamp(m, names + [name], now) == if name in s then s[name := s[name].(lastSeen := At(now))] else s
  {
  }

  /** A scan whose clock is not behind any stored timestamp never moves a `last_seen` backward. */
  lemma StampMonotone(m: Store, names: seq<string>, now: int)
    requires forall n :: n in m ==> NoLater(m[n].lastSeen, At(now))
    ensures forall n :: n in m ==> NoLater(m[n].lastSeen, Stamp(m, names, now)[n].lastSeen)
  {
  }
}
