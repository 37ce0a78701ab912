/** The admin dashboard (`dashboard.controller.js`): participants per
    status and per work unit, the daily registration counts of the last
    week, and the Monday-to-Sunday week arithmetic of the weekly view. */
module Dashboard {
  import opened Base
  import opened Text
  import opened Tally
  import opened Store

  // ---------------------------------------------------------------------------
  // Units in ascending order.

  /** Strictly increasing in code-point order. */
  predicate Ascending(s: seq<string>) {
    forall i, j :: 0 <= i < j < |s| ==> LexLe(s[i], s[j]) && s[i] != s[j]
  }

  lemma LexLeRefl(a: string)
    ensures LexLe(a, a)
  {
    LexLeTotal(a, a);
  }

  function InsertAsc(s: seq<string>, x: string): (r: seq<string>)
    requires Ascending(s) && x !in s
    ensures Ascending(r)
    ensures forall y :: y in r <==> y == x || y in s
    ensures |r| == |s| + 1
    decreases |s|
  {
    if |s| == 0 then [x]
    else if LexLe(x, s[0]) then
      assert forall j :: 0 <= j < |s| ==> LexLe(x, s[j]) by {
        forall j | 0 <= j < |s| ensures LexLe(x, s[j]) {
          if j > 0 { LexLeTrans(x, s[0], s[j]); }
        }
      }
      [x] + s
    else
      LexLeTotal(x, s[0]);
      var rest := InsertAsc(s[1..], x);
      assert forall y :: y in rest ==> LexLe(s[0], y) && s[0] != y by {
        forall y | y in rest ensures LexLe(s[0], y) && s[0] != y {
          if y != x {
            var j :| 0 <= j < |s[1..]| && s[1..][j] == y;
            assert s[j + 1] == y;
          }
        }
      }
      var r := [s[0]] + rest;
      assert forall j :: 0 < j < |r| ==> r[j] in rest by {
        forall j | 0 < j < |r| ensures r[j] in rest { assert r[j] == rest[j - 1]; }
      }
      r
  }

  /** The units, each once, in ascending order (`orderBy unit_kerja asc`). */
  method SortAsc(us: set<string>) returns (s: seq<string>)
    ensures Ascending(s)
    ensures forall u :: u in s <==> u in us
  {
    s := [];
    var todo := us;
    while todo != {}
      invariant todo <= us
      invariant Ascending(s)
      invariant forall u :: u in s <==> u in us - todo
      decreases todo
    {
      var x :| x in todo;
      s := InsertAsc(s, x);
      todo := todo - {x};
    }
  }

  // ---------------------------------------------------------------------------
  // Participants per work unit.

  function UnitIs(u: Option<string>): Peserta -> bool {
    (p: Peserta) => p.bio.unitKerja == u
  }

  function UnitIn(units: seq<string>): Peserta -> bool {
    (p: Peserta) => p.bio.unitKerja.Some? && p.bio.unitKerja.value in units
  }

  function StatusIs(s: StatusPeserta): Peserta -> bool {
    (p: Peserta) => p.statusPeserta == s
  }

  /** The participants with status 'Aktif'. */
  function Active(db: Db): (a: set<Id>)
    ensures a == Matching(db.peserta.Keys, db.peserta, StatusIs(Aktif))
  {
    set id | id in db.peserta && db.peserta[id].statusPeserta == Aktif
  }

  /** The units some active participant names. */
  function UnitsOf(db: Db): (us: set<string>)
    ensures forall u :: u in us <==> exists id :: id in Active(db) && db.peserta[id].bio.unitKerja == Some(u)
  {
    set id | id in Active(db) && db.peserta[id].bio.unitKerja.Some? :: db.peserta[id].bio.unitKerja.value
  }

  /** How many of `a` are in unit `u`. */
  function CountIn(db: Db, a: set<Id>, u: Option<string>): (n: nat)
    requires a <= db.peserta.Keys
    ensures n == |Matching(a, db.peserta, UnitIs(u))|
  {
    var s := set id | id in a && db.peserta[id].bio.unitKerja == u;
    assert s == Matching(a, db.peserta, UnitIs(u));
    |s|
  }

  /** One entry per unit of `units`: the unit and how many of `a` are in it. */
  function UnitEntries(db: Db, a: set<Id>, units: seq<string>): (e: seq<(string, nat)>)
    requires a <= db.peserta.Keys
    ensures |e| == |units|
    ensures forall i :: 0 <= i < |units| ==> e[i] == (units[i], |Matching(a, db.peserta, UnitIs(Some(units[i])))|)
  {
    seq(|units|, i requires 0 <= i < |units| => (units[i], CountIn(db, a, Some(units[i]))))
  }

  /** Those in one of `units` are those in its first unit and those in one
      of the rest, and no one is in both. */
  lemma SplitUnits(db: Db, a: set<Id>, units: seq<string>)
    requires a <= db.peserta.Keys && |units| > 0 && units[0] !in units[1..]
    ensures var m := db.peserta;
      && Matching(a, m, UnitIn(units)) == Matching(a, m, UnitIs(Some(units[0]))) + Matching(a, m, UnitIn(units[1..]))
      && Matching(a, m, UnitIs(Some(units[0]))) !! Matching(a, m, UnitIn(units[1..]))
  {
    var m := db.peserta;
    forall id | id in Matching(a, m, UnitIn(units))
      ensures id in Matching(a, m, UnitIs(Some(units[0]))) + Matching(a, m, UnitIn(units[1..]))
    {
      var v := m[id].bio.unitKerja.value;
      if v != units[0] {
        var k :| 0 <= k < |units| && units[k] == v;
        assert units[1..][k - 1] == v;
      }
    }
  }

  /** Counting unit by unit over distinct units counts everyone in one of
      them, each once. */
  lemma {:induction false} PartitionSum(db: Db, a: set<Id>, units: seq<string>)
    requires a <= db.peserta.Keys
    requires forall i, j :: 0 <= i < j < |units| ==> units[i] != units[j]
    ensures Sum(UnitEntries(db, a, units)) == |Matching(a, db.peserta, UnitIn(units))|
    decreases |units|
  {
    if |units| == 0 {
      assert Matching(a, db.peserta, UnitIn(units)) == {};
    } else {
      PartitionSum(db, a, units[1..]);
      assert UnitEntries(db, a, units)[1..] == UnitEntries(db, a, units[1..]);
      SplitUnits(db, a, units);
    }
  }

  /** Listing every named unit, the active participants split into those in
      a listed unit and those without one. */
  lemma ActiveSplit(db: Db, units: seq<string>)
    requires forall u :: u in units <==> u in UnitsOf(db)
    ensures var m := db.peserta; var a := Active(db);
      && a == Matching(a, m, UnitIn(units)) + Matching(a, m, UnitIs(None))
      && Matching(a, m, UnitIn(units)) !! Matching(a, m, UnitIs(None))
  {
  }

  /** Every participant is either active or not, never both. */
  lemma StatusSplit(db: Db)
    ensures var m := db.peserta;
      && m.Keys == Matching(m.Keys, m, StatusIs(Aktif)) + Matching(m.Keys, m, StatusIs(Nonaktif))
      && Matching(m.Keys, m, StatusIs(Aktif)) !! Matching(m.Keys, m, StatusIs(Nonaktif))
  {
  }

  datatype UnitStats = UnitStats(
    statistics: seq<(string, nat)>,
    totalDivisi: nat,
    totalPeserta: nat,
    aktif: nat,
    nonaktif: nat)

  const NoUnit := "Tidak Ditentukan"

  /** The reply assembled from the ascending listing of the named units. */
  function Assemble(db: Db, units: seq<string>): (r: UnitStats)
  {
    var active := Active(db);
    var entries := UnitEntries(db, active, units);
    var nullCount := CountIn(db, active, None);
    var inactive := set id | id in db.peserta && db.peserta[id].statusPeserta == Nonaktif;
    UnitStats(if nullCount > 0 then entries + [(NoUnit, nullCount)] else entries,
              |units|, Sum(entries) + nullCount, |active|, |inactive|)
  }

  lemma AssembleStatuses(db: Db, units: seq<string>)
    ensures var r := Assemble(db, units);
      && r.aktif == |Matching(db.peserta.Keys, db.peserta, StatusIs(Aktif))|
      && r.nonaktif == |Matching(db.peserta.Keys, db.peserta, StatusIs(Nonaktif))|
      && r.aktif + r.nonaktif == |db.peserta|
  {
    var inactive := set id | id in db.peserta && db.peserta[id].statusPeserta == Nonaktif;
    assert inactive == Matching(db.peserta.Keys, db.peserta, StatusIs(Nonaktif));
    StatusSplit(db);
  }

  lemma AssembleUnits(db: Db, units: seq<string>)
    requires Ascending(units) && forall u :: u in units <==> u in UnitsOf(db)
    ensures var r := Assemble(db, units);
      && r.totalDivisi == |UnitsOf(db)|
      && (|r.statistics| == r.totalDivisi || |r.statistics| == r.totalDivisi + 1)
      && KeysOf(r.statistics[..r.totalDivisi]) == units
      && (forall i :: 0 <= i < r.totalDivisi ==> (
        && r.statistics[i].0 in UnitsOf(db)
        && r.statistics[i].1 == |Matching(Active(db), db.peserta, UnitIs(Some(r.statistics[i].0)))| > 0))
  {
    var r := Assemble(db, units);
    var e := UnitEntries(db, Active(db), units);
    AscendingLength(units, UnitsOf(db));
    EntriesOfNamedUnits(db, units);
    AssembleStartsWithEntries(db, units);
    assert r.statistics[..r.totalDivisi] == e;
    forall i | 0 <= i < r.totalDivisi
      ensures r.statistics[i].0 in UnitsOf(db)
      ensures r.statistics[i].1 == |Matching(Active(db), db.peserta, UnitIs(Some(r.statistics[i].0)))| > 0
    {
      assert r.statistics[i] == e[i];
    }
  }

  /** The reply's statistics are the unit entries, perhaps followed by the
      bucket. */
  lemma AssembleStartsWithEntries(db: Db, units: seq<string>)
    ensures var r := Assemble(db, units); var e := UnitEntries(db, Active(db), units);
      && r.totalDivisi == |units|
      && (r.statistics == e || r.statistics == e + [(NoUnit, CountIn(db, Active(db), None))])
  {
  }

  /** Each entry for a named unit is that unit with its positive number of
      active participants, and the keys are the units. */
  lemma EntriesOfNamedUnits(db: Db, units: seq<string>)
    requires forall u :: u in units ==> u in UnitsOf(db)
    ensures var e := UnitEntries(db, Active(db), units);
      && KeysOf(e) == units
      && forall i :: 0 <= i < |e| ==> (
        && e[i].0 in UnitsOf(db)
        && e[i].1 == |Matching(Active(db), db.peserta, UnitIs(Some(e[i].0)))| > 0)
  {
    UnitsHaveSomeone(db, Active(db), units);
  }

  lemma AssembleBucket(db: Db, units: seq<string>)
    ensures var r := Assemble(db, units);
      && (|r.statistics| == r.totalDivisi + 1 <==> exists id :: id in Active(db) && db.peserta[id].bio.unitKerja.None?)
      && (|r.statistics| == r.totalDivisi + 1 ==>
            r.statistics[r.totalDivisi] == (NoUnit, |Matching(Active(db), db.peserta, UnitIs(None))|))
  {
    NullBucket(db);
  }

  lemma AssembleTotals(db: Db, units: seq<string>)
    requires Ascending(units) && forall u :: u in units <==> u in UnitsOf(db)
    ensures var r := Assemble(db, units);
      && r.totalPeserta == |Active(db)| == r.aktif
      && Sum(r.statistics) == r.totalPeserta
  {
    var active := Active(db);
    var entries := UnitEntries(db, active, units);
    PartitionSum(db, active, units);
    ActiveSplit(db, units);
    SumAppend(entries, (NoUnit, CountIn(db, active, None)));
  }

  /** `getUnitKerjaStatistics`. Both statuses are always reported, each
      with its number of participants. The units named by active
      participants come once each, in ascending order, each with its number
      of active participants; a final 'Tidak Ditentukan' entry holds the
      active participants without a unit, and appears exactly when there
      are any. `totalDivisi` counts the named units only; `totalPeserta` is
      every active participant, which is also what the entries add up to. */
  method GetUnitKerjaStatistics(db: Db) returns (r: UnitStats)
    ensures r.aktif == |Matching(db.peserta.Keys, db.peserta, StatusIs(Aktif))|
    ensures r.nonaktif == |Matching(db.peserta.Keys, db.peserta, StatusIs(Nonaktif))|
    ensures r.aktif + r.nonaktif == |db.peserta|
    ensures r.totalDivisi == |UnitsOf(db)|
    ensures |r.statistics| == r.totalDivisi || |r.statistics| == r.totalDivisi + 1
    ensures Ascending(KeysOf(r.statistics[..r.totalDivisi]))
    ensures forall i :: 0 <= i < r.totalDivisi ==> (
      && r.statistics[i].0 in UnitsOf(db)
      && r.statistics[i].1 == |Matching(Active(db), db.peserta, UnitIs(Some(r.statistics[i].0)))| > 0)
    ensures |r.statistics| == r.totalDivisi + 1 <==> exists id :: id in Active(db) && db.peserta[id].bio.unitKerja.None?
    ensures |r.statistics| == r.totalDivisi + 1 ==> r.statistics[r.totalDivisi] == (NoUnit, |Matching(Active(db), db.peserta, UnitIs(None))|)
    ensures r.totalPeserta == |Active(db)| == r.aktif
    ensures Sum(r.statistics) == r.totalPeserta
  {
    var units := SortAsc(UnitsOf(db));
    r := Assemble(db, units);
    AssembleStatuses(db, units);
    AssembleUnits(db, units);
    AssembleBucket(db, units);
    AssembleTotals(db, units);
  }

  lemma UnitsHaveSomeone(db: Db, a: set<Id>, units: seq<string>)
    requires a == Active(db)
    requires forall u :: u in units ==> u in UnitsOf(db)
    ensures forall i :: 0 <= i < |units| ==> UnitEntries(db, a, units)[i].1 > 0
  {
    forall i | 0 <= i < |units| ensures UnitEntries(db, a, units)[i].1 > 0 {
      assert units[i] in UnitsOf(db);
      var id :| id in a && db.peserta[id].bio.unitKerja == Some(units[i]);
      assert id in Matching(a, db.peserta, UnitIs(Some(units[i])));
    }
  }

  lemma NullBucket(db: Db)
    ensures |Matching(Active(db), db.peserta, UnitIs(None))| > 0 <==>
      exists id :: id in Active(db) && db.peserta[id].bio.unitKerja.None?
  {
    if exists id :: id in Active(db) && db.peserta[id].bio.unitKerja.None? {
      var id :| id in Active(db) && db.peserta[id].bio.unitKerja.None?;
      assert id in Matching(Active(db), db.peserta, UnitIs(None));
    }
  }

  /** A repetition-free listing of a set of units is as long as the set. */
  lemma {:induction false} AscendingLength(s: seq<string>, us: set<string>)
    requires Ascending(s)
    requires forall u :: u in s <==> u in us
    ensures |s| == |us|
    decreases |s|
  {
    if |s| > 0 {
      assert s[0] !in s[1..];
      assert forall u :: u in s[1..] <==> u in us - {s[0]};
      AscendingLength(s[1..], us - {s[0]});
    }
  }

  lemma {:induction false} SumAppend(t: seq<(string, nat)>, e: (string, nat))
    ensures Sum(t + [e]) == Sum(t) + e.1
    decreases |t|
  {
    if |t| > 0 {
      assert (t + [e])[1..] == t[1..] + [e];
      SumAppend(t[1..], e);
    }
  }

  // ---------------------------------------------------------------------------
  // Daily registrations of the last week.

  const MsPerDay := 86400000

  /** The calendar day (UTC) of a timestamp, as a day number: what
      `toISOString().split('T')[0]` names. Dafny's division rounds down for
      a positive divisor, as the calendar does before 1970 too. */
  function DayOf(ms: int): int {
    ms / MsPerDay
  }

  function OnDay(d: int): Peserta -> bool {
    (p: Peserta) => DayOf(p.createdAt) == d
  }

  /** The participants registered at or after `start`. */
  function Window(db: Db, start: int): (w: set<Id>)
    ensures w <= db.peserta.Keys
    ensures forall id :: id in w <==> id in db.peserta && db.peserta[id].createdAt >= start
  {
    set id | id in db.peserta && db.peserta[id].createdAt >= start
  }

  function DaysOf(rows: seq<Peserta>): (ds: seq<int>)
    ensures |ds| == |rows| && forall i :: 0 <= i < |rows| ==> ds[i] == DayOf(rows[i].createdAt)
  {
    seq(|rows|, i requires 0 <= i < |rows| => DayOf(rows[i].createdAt))
  }

  lemma {:induction false} CountDays(rows: seq<Peserta>, d: int)
    ensures Count(DaysOf(rows), d) == CountIf(rows, OnDay(d))
    decreases |rows|
  {
    if |rows| > 0 {
      CountDays(rows[..|rows| - 1], d);
      assert DaysOf(rows)[..|rows| - 1] == DaysOf(rows[..|rows| - 1]);
    }
  }

  /** `getStatistikHarian`: the participants registered in the last seven
      days, grouped by calendar day. Each day with a registration appears
      once, with its number of registrations, and the numbers add up to all
      registrations in the window. */
  method GetStatistikHarian(db: Db, now: int) returns (r: seq<(int, nat)>)
    ensures DistinctKeys(r)
    ensures forall d :: HasKey(r, d) <==> exists id :: id in Window(db, now - 7 * MsPerDay) && DayOf(db.peserta[id].createdAt) == d
    ensures forall i :: 0 <= i < |r| ==> r[i].1 == |Matching(Window(db, now - 7 * MsPerDay), db.peserta, OnDay(r[i].0))| > 0
    ensures Sum(r) == |Window(db, now - 7 * MsPerDay)|
  {
    var w := Window(db, now - 7 * MsPerDay);
    var ids := ListDesc(db.peserta, w, (p: Peserta) => p.createdAt);
    var rows := Rows(ids, db.peserta);
    var days := DaysOf(rows);
    r := TallyOf(days);
    TallyKeys(days);
    TallyCounts(days);
    TallySum(days);
    forall i | 0 <= i < |r| ensures r[i].1 == |Matching(w, db.peserta, OnDay(r[i].0))| {
      CountDays(rows, r[i].0);
      CountRows(ids, db.peserta, w, OnDay(r[i].0));
    }
    forall d ensures HasKey(r, d) <==> exists id :: id in w && DayOf(db.peserta[id].createdAt) == d {
      if d in days {
        var i :| 0 <= i < |days| && days[i] == d;
        assert ids[i] in w && DayOf(db.peserta[ids[i]].createdAt) == d;
      }
      if exists id :: id in w && DayOf(db.peserta[id].createdAt) == d {
        var id :| id in w && DayOf(db.peserta[id].createdAt) == d;
        var i :| 0 <= i < |ids| && ids[i] == id;
        assert days[i] == d;
      }
    }
  }

  // ---------------------------------------------------------------------------
  // Weeks, on day numbers (day 0 is 1 January 1970, a Thursday).

  /** `getDay()`: 0 for Sunday, 1 for Monday, ..., 6 for Saturday. */
  function Weekday(day: int): (w: nat)
    ensures w < 7
  {
    (day + 4) % 7
  }

  /** `getStartOfWeek`: the Monday of the week `day` lies in, weeks running
      Monday to Sunday, so a Sunday goes back six days. */
  function StartOfWeek(day: int): (s: int)
    ensures s <= day < s + 7
    ensures Weekday(s) == 1
  {
    var w := Weekday(day);
    day - w + (if w == 0 then -6 else 1)
  }

  /** `getEndOfWeek`: six days after the start, the Sunday of that week. */
  function EndOfWeek(start: int): (e: int)
    ensures Weekday(start) == 1 ==> Weekday(e) == 0
  {
    start + 6
  }

  /** The week of a day runs from its Monday to its Sunday, and two days
      share a week exactly when the second lies in the first one's week. */
  lemma {:induction false} SameWeek(d: int, e: int)
    ensures StartOfWeek(d) <= d <= EndOfWeek(StartOfWeek(d))
    ensures StartOfWeek(d) == StartOfWeek(e) <==> StartOfWeek(d) <= e <= EndOfWeek(StartOfWeek(d))
  {
    var s := StartOfWeek(d);
    if s <= e <= s + 6 {
      MondayIsItsOwnStart(s, e);
    }
  }

  /** Any day of the week starting on Monday `s` has `s` as its start. */
  lemma MondayIsItsOwnStart(s: int, e: int)
    requires Weekday(s) == 1 && s <= e <= s + 6
    ensures StartOfWeek(e) == s
  {
    var t := StartOfWeek(e);
    assert (t - s) % 7 == 0 by {
      assert (t + 4) % 7 == (s + 4) % 7;
    }
  }
}
