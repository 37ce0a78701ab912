/** The admins' view of every logbook (`monitoringLogbook.controller.js`):
    optional search, date and work-unit filters, combined. */
module Monitoring {
  import opened Base
  import opened Text
  import opened Store
  import LB = Logbooks

  /** The query string. Each filter applies only when given (truthy). */
  datatype Query = Query(
    search: Option<string>,
    startDate: Option<string>,
    endDate: Option<string>,
    unitKerja: Option<string>)

  datatype Reply = AllLogbooks(ids: seq<Id>, total: nat, totalToday: nat) | ServerError {
    function Code(): nat {
      match this
      case AllLogbooks(_, _, _) => 200
      case ServerError => 500
    }
  }

  /** `contains` with `mode: 'insensitive'`: `needle` occurs in `hay` once
      both are lower-cased. */
  predicate ContainsInsensitive(hay: string, needle: string) {
    Contains(Lower(hay), Lower(needle))
  }

  /** The search filter: the author's name or the activity contains the
      search text, ignoring case. An entry whose author row is missing can
      only match on its activity. */
  predicate MatchesSearch(db: Db, l: Logbook, search: string) {
    || (l.idPeserta in db.peserta && ContainsInsensitive(db.peserta[l.idPeserta].nama, search))
    || ContainsInsensitive(l.kegiatan, search)
  }

  /** The work-unit filter: the author's unit is exactly the one asked for. */
  predicate MatchesUnit(db: Db, l: Logbook, unit: string) {
    l.idPeserta in db.peserta && db.peserta[l.idPeserta].bio.unitKerja == Some(unit)
  }

  /** The search and work-unit filters, each when given. */
  predicate MatchesPeople(db: Db, l: Logbook, q: Query) {
    && (Present(q.search) ==> MatchesSearch(db, l, q.search.value))
    && (Present(q.unitKerja) ==> MatchesUnit(db, l, q.unitKerja.value))
  }

  /** Every filter of the query, the date bounds already read. */
  predicate Matches(db: Db, l: Logbook, q: Query, range: LB.Range) {
    MatchesPeople(db, l, q) && LB.InRange(l.tanggal, range)
  }

  function Selected(db: Db, q: Query, range: LB.Range): (s: set<Id>)
    ensures s <= db.logbook.Keys
    ensures forall id :: id in s <==> id in db.logbook && Matches(db, db.logbook[id], q, range)
  {
    set id | id in db.logbook && Matches(db, db.logbook[id], q, range)
  }

  /** The day starting at local midnight `today`: `[today, today + 24h)`. */
  function Today(today: int): LB.Range {
    LB.Range(Some(today), Some(today + 24 * 60 * 60 * 1000 - 1))
  }

  /** `getAllLogbooks`: a bound that is not a date is 500. Otherwise the
      entries meeting every given filter, latest date first, and their
      number; `totalToday` counts the entries that meet the search and unit
      filters and are dated today, whatever date bounds were asked for. */
  method GetAllLogbooks(db: Db, q: Query, dateOf: string -> Option<int>, today: int) returns (r: Reply)
    ensures r == ServerError <==> LB.ParseRange(q.startDate, q.endDate, dateOf).None?
    ensures r.AllLogbooks? ==> (
      && var range := LB.ParseRange(q.startDate, q.endDate, dateOf).value;
      && SortedDesc(r.ids, db.logbook, (l: Logbook) => l.tanggal) && Distinct(r.ids)
      && (forall id :: id in r.ids <==> id in db.logbook && Matches(db, db.logbook[id], q, range))
      && r.total == |r.ids|
      && r.totalToday == |Selected(db, q, Today(today))|)
  {
    var range := LB.ParseRange(q.startDate, q.endDate, dateOf);
    if range.None? {
      return ServerError;
    }
    var ids := ListDesc(db.logbook, Selected(db, q, range.value), (l: Logbook) => l.tanggal);
    r := AllLogbooks(ids, |ids|, |Selected(db, q, Today(today))|);
  }

  /** With no filter given, every entry is listed. */
  lemma NoFilterListsAll(db: Db, dateOf: string -> Option<int>)
    ensures var q := Query(None, None, None, None);
      && LB.ParseRange(q.startDate, q.endDate, dateOf) == Some(LB.Range(None, None))
      && Selected(db, q, LB.Range(None, None)) == db.logbook.Keys
  {
  }

  /** The filters combine as a conjunction: an entry is selected by a query
      exactly when each single filter of it, asked alone, selects it. */
  lemma FiltersCombine(db: Db, q: Query, range: LB.Range, id: Id)
    requires id in db.logbook
    ensures id in Selected(db, q, range) <==>
      && id in Selected(db, q.(unitKerja := None), LB.Range(None, None))
      && id in Selected(db, q.(search := None), LB.Range(None, None))
      && id in Selected(db, Query(None, None, None, None), range)
  {
  }

  /** Case does not matter to the search: a lower-cased search text selects
      the same entries. */
  lemma {:induction false} SearchIgnoresCase(db: Db, l: Logbook, search: string)
    ensures MatchesSearch(db, l, Lower(search)) <==> MatchesSearch(db, l, search)
  {
    LowerIdempotent(search);
  }
}
