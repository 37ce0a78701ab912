/** A participant's own logbook (`modulPeserta.controller.js`): writing,
    listing, editing and deleting entries, each change announced to every
    Admin. */
module Logbooks {
  import opened Base
  import opened Store

  datatype Reply =
    | Created(id: Id)
    | MyLogbooks(ids: seq<Id>, totalAllTime: nat, totalThisMonth: nat)
    | Updated(id: Id)
    | Deleted
    | BadRequest
    | NotFound
    | ServerError
  {
    function Code(): nat {
      match this
      case Created(_) => 201
      case MyLogbooks(_, _, _) => 200
      case Updated(_) => 200
      case Deleted => 200
      case BadRequest => 400
      case NotFound => 404
      case ServerError => 500
    }
  }

  /** A date filter; each bound is optional and both are inclusive. */
  datatype Range = Range(lo: Option<int>, hi: Option<int>)

  predicate InRange(t: int, r: Range) {
    (r.lo.None? || r.lo.value <= t) && (r.hi.None? || t <= r.hi.value)
  }

  /** The bounds of `startDate` / `endDate`, each used only when given;
      `dateOf` stands for `new Date(text)`. A given bound that is not a date
      reaches the database as an Invalid Date, which it refuses (`None`). */
  function ParseRange(startDate: Option<string>, endDate: Option<string>, dateOf: string -> Option<int>): (r: Option<Range>)
    ensures r.None? <==> (Present(startDate) && dateOf(startDate.value).None?) || (Present(endDate) && dateOf(endDate.value).None?)
    ensures r.Some? ==> (
      && (r.value.lo.Some? <==> Present(startDate))
      && (r.value.hi.Some? <==> Present(endDate))
      && (r.value.lo.Some? ==> r.value.lo == dateOf(startDate.value))
      && (r.value.hi.Some? ==> r.value.hi == dateOf(endDate.value)))
  {
    var lo := if Present(startDate) then dateOf(startDate.value) else None;
    var hi := if Present(endDate) then dateOf(endDate.value) else None;
    if (Present(startDate) && lo.None?) || (Present(endDate) && hi.None?) then None
    else Some(Range(lo, hi))
  }

  /** The logbook `id` exists and was written by `who`. */
  predicate Owned(db: Db, id: Id, who: Id) {
    id in db.logbook && db.logbook[id].idPeserta == who
  }

  /** One unread 'Logbook' notification more for every Admin, nothing else. */
  ghost predicate EveryAdminTold(before: multiset<Notif>, after: multiset<Notif>, db: Db) {
    after == before + FanOut(Admins(db), "Logbook")
  }

  /** What `EveryAdminTold` means, notification by notification. */
  lemma AdminsToldOnce(before: multiset<Notif>, after: multiset<Notif>, db: Db)
    requires EveryAdminTold(before, after, db)
    ensures |after| == |before| + |Admins(db)|
    ensures forall a :: a in Admins(db) ==> after[Notif(a, "Logbook", false)] == before[Notif(a, "Logbook", false)] + 1
    ensures forall n :: n in after && n !in before ==> n.recipient in Admins(db) && n.tipe == "Logbook" && !n.read
  {
    var m := FanOut(Admins(db), "Logbook");
    assert after == before + m;
    assert |after| == |before| + |m|;
    forall a | a in Admins(db) ensures after[Notif(a, "Logbook", false)] == before[Notif(a, "Logbook", false)] + 1 {
      assert m[Notif(a, "Logbook", false)] == 1;
    }
  }

  /** `createLogbook`: no date or no activity is 400. A caller who is not a
      participant (the notification text reads their name) or a date that is
      not one fails (500) before the transaction commits. Otherwise, in one
      transaction, one entry by the caller is added and every Admin gets one
      unread 'Logbook' notification. */
  ghost function CreateLogbook(db: Db, user: User, tanggal: Option<string>, kegiatan: Option<string>,
                               dateOf: string -> Option<int>): (r: Step<Reply>)
    ensures r.reply == BadRequest <==> !Present(tanggal) || !Present(kegiatan)
    ensures !r.reply.Created? ==> r.db == db && r.reply in {BadRequest, ServerError}
    ensures r.reply.Created? <==>
      Present(tanggal) && Present(kegiatan) && user.id in db.peserta && dateOf(tanggal.value).Some?
    ensures r.reply.Created? ==> (
      && r.reply.id !in db.logbook
      && r.db.logbook == db.logbook[r.reply.id := Logbook(user.id, dateOf(tanggal.value).value, kegiatan.value)]
      && EveryAdminTold(db.staffNotifs, r.db.staffNotifs, db)
      && r.db == db.(logbook := r.db.logbook, staffNotifs := r.db.staffNotifs))
  {
    if !Present(tanggal) || !Present(kegiatan) then Step(db, BadRequest)
    else if user.id !in db.peserta then Step(db, ServerError)
    else match dateOf(tanggal.value)
      case None => Step(db, ServerError)
      case Some(d) =>
        var id := FreshId(db.logbook.Keys);
        Step(db.(logbook := db.logbook[id := Logbook(user.id, d, kegiatan.value)],
                 staffNotifs := db.staffNotifs + FanOut(Admins(db), "Logbook")),
             Created(id))
  }

  /** The caller's entries. */
  function Mine(db: Db, who: Id): (s: set<Id>)
    ensures s <= db.logbook.Keys
    ensures forall id :: id in s <==> Owned(db, id, who)
  {
    set id | id in db.logbook && db.logbook[id].idPeserta == who
  }

  /** The caller's entries within a date filter. */
  function MineIn(db: Db, who: Id, range: Range): (s: set<Id>)
    ensures s <= Mine(db, who)
    ensures forall id :: id in s <==> Owned(db, id, who) && InRange(db.logbook[id].tanggal, range)
  {
    set id | id in Mine(db, who) && InRange(db.logbook[id].tanggal, range)
  }

  lemma SubsetSize(a: set<Id>, b: set<Id>)
    requires a <= b
    ensures |a| <= |b|
  {
    assert b == a + (b - a);
  }

  /** `getMyLogbook`: a bound that is not a date is 500. Otherwise exactly
      the caller's entries within the bounds, latest date first; the
      all-time total counts every entry of the caller whatever the bounds,
      and the month total those dated in `[monthStart, nextMonthStart)`,
      which is never more. */
  method GetMyLogbook(db: Db, user: User, startDate: Option<string>, endDate: Option<string>,
                      dateOf: string -> Option<int>, monthStart: int, nextMonthStart: int) returns (r: Reply)
    ensures r == ServerError <==> ParseRange(startDate, endDate, dateOf).None?
    ensures r != ServerError ==> r.MyLogbooks?
    ensures r.MyLogbooks? ==> (
      && var range := ParseRange(startDate, endDate, dateOf).value;
      && SortedDesc(r.ids, db.logbook, (l: Logbook) => l.tanggal) && Distinct(r.ids)
      && (forall id :: id in r.ids <==> Owned(db, id, user.id) && InRange(db.logbook[id].tanggal, range))
      && r.totalAllTime == |Mine(db, user.id)|
      && r.totalThisMonth == |MineIn(db, user.id, Range(Some(monthStart), Some(nextMonthStart - 1)))|
      && r.totalThisMonth <= r.totalAllTime
      && |r.ids| <= r.totalAllTime
      && (!Present(startDate) && !Present(endDate) ==> |r.ids| == r.totalAllTime))
  {
    var range := ParseRange(startDate, endDate, dateOf);
    if range.None? {
      return ServerError;
    }
    var mine := Mine(db, user.id);
    var sel := MineIn(db, user.id, range.value);
    var ids := ListDesc(db.logbook, sel, (l: Logbook) => l.tanggal);
    var month := MineIn(db, user.id, Range(Some(monthStart), Some(nextMonthStart - 1)));
    SubsetSize(month, mine);
    SubsetSize(sel, mine);
    if !Present(startDate) && !Present(endDate) {
      assert sel == mine;
    }
    r := MyLogbooks(ids, |mine|, |month|);
  }

  /** `editLogbook`: no date or no activity is 400, an entry that does not
      exist or is someone else's 404, a date that is not one 500, all with
      nothing written. Otherwise the entry gets the new date and activity
      and keeps its author. The notifications are a separate write after
      that: a caller who is not a participant, with some Admin to tell,
      fails there (500) with the edit already saved; otherwise every Admin
      is told. */
  ghost function EditLogbook(db: Db, user: User, logbookId: Id, tanggal: Option<string>, kegiatan: Option<string>,
                             dateOf: string -> Option<int>): (r: Step<Reply>)
    ensures r.reply == BadRequest <==> !Present(tanggal) || !Present(kegiatan)
    ensures r.reply == NotFound <==> Present(tanggal) && Present(kegiatan) && !Owned(db, logbookId, user.id)
    ensures r.reply in {BadRequest, NotFound} ==> r.db == db
    ensures Present(tanggal) && Present(kegiatan) && Owned(db, logbookId, user.id) && dateOf(tanggal.value).None? ==>
      r == Step(db, ServerError)
    ensures Present(tanggal) && Present(kegiatan) && Owned(db, logbookId, user.id) && dateOf(tanggal.value).Some? ==> (
      && r.db.logbook == db.logbook[logbookId := Logbook(user.id, dateOf(tanggal.value).value, kegiatan.value)]
      && (r.reply == Updated(logbookId) <==> user.id in db.peserta || Admins(db) == {})
      && (r.reply == Updated(logbookId) ==> EveryAdminTold(db.staffNotifs, r.db.staffNotifs, db))
      && (r.reply != Updated(logbookId) ==> r.reply == ServerError && r.db.staffNotifs == db.staffNotifs)
      && r.db == db.(logbook := r.db.logbook, staffNotifs := r.db.staffNotifs))
  {
    if !Present(tanggal) || !Present(kegiatan) then Step(db, BadRequest)
    else if !Owned(db, logbookId, user.id) then Step(db, NotFound)
    else match dateOf(tanggal.value)
      case None => Step(db, ServerError)
      case Some(d) =>
        var edited := db.(logbook := db.logbook[logbookId := Logbook(user.id, d, kegiatan.value)]);
        if user.id !in db.peserta && Admins(db) != {} then Step(edited, ServerError)
        else
          Step(edited.(staffNotifs := db.staffNotifs + FanOut(Admins(db), "Logbook")), Updated(logbookId))
  }

  /** `deleteLogbook`: an entry that does not exist or is someone else's is
      404 with nothing written; otherwise, in one transaction, exactly that
      entry is removed and every Admin is told. */
  ghost function DeleteLogbook(db: Db, user: User, logbookId: Id): (r: Step<Reply>)
    ensures r.reply == NotFound <==> !Owned(db, logbookId, user.id)
    ensures r.reply == NotFound ==> r.db == db
    ensures r.reply != NotFound ==> (
      && r.reply == Deleted
      && r.db.logbook.Keys == db.logbook.Keys - {logbookId}
      && (forall id :: id in r.db.logbook ==> r.db.logbook[id] == db.logbook[id])
      && EveryAdminTold(db.staffNotifs, r.db.staffNotifs, db)
      && r.db == db.(logbook := r.db.logbook, staffNotifs := r.db.staffNotifs))
  {
    if !Owned(db, logbookId, user.id) then Step(db, NotFound)
    else Step(db.(logbook := db.logbook - {logbookId}, staffNotifs := db.staffNotifs + FanOut(Admins(db), "Logbook")), Deleted)
  }

  /** No one can edit or delete an entry someone else wrote. */
  lemma OthersCannotTouch(db: Db, user: User, logbookId: Id, tanggal: Option<string>, kegiatan: Option<string>,
                          dateOf: string -> Option<int>)
    requires logbookId in db.logbook && db.logbook[logbookId].idPeserta != user.id
    ensures DeleteLogbook(db, user, logbookId) == Step(db, NotFound)
    ensures EditLogbook(db, user, logbookId, tanggal, kegiatan, dateOf).db == db
  {
  }

  /** Writing an entry and deleting it again leaves the logbooks as they
      were, with every Admin told twice. */
  lemma CreateThenDelete(db: Db, user: User, tanggal: Option<string>, kegiatan: Option<string>,
                         dateOf: string -> Option<int>)
    ensures var c := CreateLogbook(db, user, tanggal, kegiatan, dateOf);
      c.reply.Created? ==> (
        && var d := DeleteLogbook(c.db, user, c.reply.id);
        && d.reply == Deleted
        && d.db.logbook == db.logbook
        && d.db.staffNotifs == db.staffNotifs + FanOut(Admins(db), "Logbook") + FanOut(Admins(db), "Logbook"))
  {
    var c := CreateLogbook(db, user, tanggal, kegiatan, dateOf);
    if c.reply.Created? {
      assert c.db.pegawai == db.pegawai;
      RemoveAdded(db.logbook, c.reply.id, c.db.logbook[c.reply.id]);
    }
  }

  /** The caller's unfiltered listing around a new entry of theirs, which is
      what a successful `CreateLogbook` adds: afterwards it holds the entries
      it held before and the new one, and the all-time total grows by one. */
  method ListingAfterCreate(db: Db, after: Db, user: User, id: Id, l: Logbook,
                            dateOf: string -> Option<int>, monthStart: int, nextMonthStart: int)
    returns (before: Reply, listed: Reply)
    requires id !in db.logbook && l.idPeserta == user.id
    requires after.logbook == db.logbook[id := l]
    ensures before.MyLogbooks? && listed.MyLogbooks?
    ensures id !in before.ids
    ensures forall x :: x in listed.ids <==> x in before.ids || x == id
    ensures listed.totalAllTime == before.totalAllTime + 1
  {
    before := GetMyLogbook(db, user, None, None, dateOf, monthStart, nextMonthStart);
    listed := GetMyLogbook(after, user, None, None, dateOf, monthStart, nextMonthStart);
    MineAfterAdd(db, after, id, l);
  }

  /** An entry added under a new id joins its author's entries and no one else's. */
  lemma MineAfterAdd(db: Db, after: Db, id: Id, l: Logbook)
    requires id !in db.logbook && after.logbook == db.logbook[id := l]
    ensures Mine(after, l.idPeserta) == Mine(db, l.idPeserta) + {id}
    ensures |Mine(after, l.idPeserta)| == |Mine(db, l.idPeserta)| + 1
  {
    assert Mine(after, l.idPeserta) == Mine(db, l.idPeserta) + {id};
  }
}
