/** A participant's side of tasks (`tugasPeserta.controller.js`): handing a
    task in, the task statistics, and reading one's notifications. */
module TaskProgress {
  import opened Base
  import opened Tally
  import opened Store

  datatype Reply =
    | Updated(id: Id)
    | Statistics(stats: TaskStats)
    | Marked
    | NotFound
    | Forbidden
  {
    function Code(): nat {
      match this
      case Updated(_) => 200
      case Statistics(_) => 200
      case Marked => 200
      case NotFound => 404
      case Forbidden => 403
    }
  }

  /** The integer parts of the statistics: the total, the per-status tally in
      first-seen order, the deadline split and the completed count. */
  datatype TaskStats = TaskStats(
    total: nat,
    statusSummary: seq<(string, nat)>,
    upcoming: nat,
    passed: nat,
    completed: nat)

  /** The status a handed-in task gets: late exactly when the moment of
      handing in is strictly after the deadline. */
  function CompletionStatus(now: int, deadline: int): (s: string)
    ensures s == "Terlambat" <==> now > deadline
    ensures s == "Selesai" <==> now <= deadline
  {
    if now > deadline then "Terlambat" else "Selesai"
  }

  /** `tugasSelesai`: an unknown task is 404 and someone else's task 403,
      both with nothing written. Otherwise the task gets its completion
      status and, when one is given, the new note; every other field and
      every other task stay as they were; and exactly one unread 'Tugas'
      notification goes to the staff member who gave the task. */
  function TugasSelesai(db: Db, tugasId: Id, user: User, catatan: Option<string>, now: int): (r: Step<Reply>)
    ensures r.reply == NotFound <==> tugasId !in db.tugas
    ensures r.reply == Forbidden <==> tugasId in db.tugas && db.tugas[tugasId].idPeserta != user.id
    ensures !r.reply.Updated? ==> r.db == db
    ensures r.reply.Updated? ==> (
      && r.reply.id == tugasId
      && tugasId in db.tugas
      && r.db.tugas.Keys == db.tugas.Keys && tugasId in r.db.tugas
      && var t := db.tugas[tugasId];
      && var t' := r.db.tugas[tugasId];
      && (forall id :: id in db.tugas && id != tugasId ==> r.db.tugas[id] == db.tugas[id])
      && t'.status == CompletionStatus(now, t.deadline)
      && (Present(catatan) ==> t'.catatan == catatan)
      && (!Present(catatan) ==> t'.catatan == t.catatan)
      && t'.idPeserta == t.idPeserta && t'.idPegawai == t.idPegawai
      && t'.deskripsi == t.deskripsi && t'.deadline == t.deadline
      && r.db.staffNotifs == db.staffNotifs + multiset{Notif(t.idPegawai, "Tugas", false)}
      && r.db == db.(tugas := r.db.tugas, staffNotifs := r.db.staffNotifs))
    ensures r.reply in {NotFound, Forbidden} || r.reply.Updated?
  {
    if tugasId !in db.tugas then Step(db, NotFound)
    else
      var t := db.tugas[tugasId];
      if t.idPeserta != user.id then Step(db, Forbidden)
      else
        var note := if Present(catatan) then catatan else t.catatan;
        var t' := t.(status := CompletionStatus(now, t.deadline), catatan := note);
        var db' := db.(tugas := db.tugas[tugasId := t'],
                       staffNotifs := db.staffNotifs + multiset{Notif(t.idPegawai, "Tugas", false)});
        Step(db', Updated(tugasId))
  }

  /** Handing in one's own task leaves it finished, never 'Pending', and
      adds exactly one notification, addressed to the task's giver. */
  lemma HandInFinishes(db: Db, tugasId: Id, user: User, catatan: Option<string>, now: int)
    requires tugasId in db.tugas && db.tugas[tugasId].idPeserta == user.id
    ensures var r := TugasSelesai(db, tugasId, user, catatan, now);
      && r.reply == Updated(tugasId)
      && r.db.tugas[tugasId].status in {"Selesai", "Terlambat"}
      && |r.db.staffNotifs| == |db.staffNotifs| + 1
      && r.db.staffNotifs[Notif(db.tugas[tugasId].idPegawai, "Tugas", false)]
           == db.staffNotifs[Notif(db.tugas[tugasId].idPegawai, "Tugas", false)] + 1
  {
  }

  // ---------------------------------------------------------------------------
  // Statistics.

  function IsUpcoming(now: int): Tugas -> bool {
    (t: Tugas) => t.deadline > now
  }

  function IsPassed(now: int): Tugas -> bool {
    (t: Tugas) => t.deadline <= now
  }

  function HasStatus(s: string): Tugas -> bool {
    (t: Tugas) => t.status == s
  }

  function StatusesOf(rows: seq<Tugas>): (ss: seq<string>)
    ensures |ss| == |rows| && forall i :: 0 <= i < |rows| ==> ss[i] == rows[i].status
  {
    seq(|rows|, i requires 0 <= i < |rows| => rows[i].status)
  }

  /** The statistics over the rows `findMany` returned. With no rows every
      figure is 0. Otherwise the status tally has one entry per status that
      occurs, holding how many rows have it, and adds up to the total; a
      deadline equal to `now` counts as passed, so upcoming and passed add
      up to the total; and only 'Selesai' rows count as completed, so
      completed and late rows together are at most the total. */
  function Summarize(rows: seq<Tugas>, now: int): (s: TaskStats)
    ensures |rows| == 0 ==> s == TaskStats(0, [], 0, 0, 0)
    ensures s.total == |rows|
    ensures DistinctKeys(s.statusSummary)
    ensures forall st :: HasKey(s.statusSummary, st) <==> st in StatusesOf(rows)
    ensures forall i :: 0 <= i < |s.statusSummary| ==>
      s.statusSummary[i].1 == Count(StatusesOf(rows), s.statusSummary[i].0) > 0
    ensures Sum(s.statusSummary) == s.total
    ensures s.upcoming == CountIf(rows, IsUpcoming(now))
    ensures s.passed == CountIf(rows, IsPassed(now))
    ensures s.upcoming + s.passed == s.total
    ensures s.completed == CountIf(rows, HasStatus("Selesai"))
    ensures s.completed + CountIf(rows, HasStatus("Terlambat")) <= s.total
  {
    if |rows| == 0 then TaskStats(0, [], 0, 0, 0)
    else
      var statuses := StatusesOf(rows);
      TallyKeys(statuses);
      TallyCounts(statuses);
      TallySum(statuses);
      CountIfSplit(rows, IsUpcoming(now), IsPassed(now));
      CountIfDisjoint(rows, HasStatus("Selesai"), HasStatus("Terlambat"));
      TaskStats(|rows|, TallyOf(statuses), CountIf(rows, IsUpcoming(now)),
                CountIf(rows, IsPassed(now)), CountIf(rows, HasStatus("Selesai")))
  }

  /** The caller's tasks. */
  function MyTasks(db: Db, who: Id): (mine: set<Id>)
    ensures mine <= db.tugas.Keys
    ensures forall id :: id in mine <==> id in db.tugas && db.tugas[id].idPeserta == who
  {
    set id | id in db.tugas && db.tugas[id].idPeserta == who
  }

  /** `getPesertaTugasStatistic`: the statistics over exactly the caller's
      tasks. Each figure counts the caller's tasks with the property it
      names, whatever order the database lists them in. */
  method GetPesertaTugasStatistic(db: Db, user: User, now: int) returns (r: Reply)
    ensures r.Statistics?
    ensures var s := r.stats; var mine := MyTasks(db, user.id);
      && s.total == |mine|
      && s.upcoming == |Matching(mine, db.tugas, IsUpcoming(now))|
      && s.passed == |Matching(mine, db.tugas, IsPassed(now))|
      && s.completed == |Matching(mine, db.tugas, HasStatus("Selesai"))|
      && s.upcoming + s.passed == s.total
      && Sum(s.statusSummary) == s.total
      && (forall st :: HasKey(s.statusSummary, st) <==> exists id :: id in mine && db.tugas[id].status == st)
      && DistinctKeys(s.statusSummary)
      && (forall i :: 0 <= i < |s.statusSummary| ==>
            s.statusSummary[i].1 == |Matching(mine, db.tugas, HasStatus(s.statusSummary[i].0))|)
  {
    var mine := MyTasks(db, user.id);
    var ids := ListDesc(db.tugas, mine, (t: Tugas) => t.deadline);
    var rows := Rows(ids, db.tugas);
    var s := Summarize(rows, now);
    CountRows(ids, db.tugas, mine, IsUpcoming(now));
    CountRows(ids, db.tugas, mine, IsPassed(now));
    CountRows(ids, db.tugas, mine, HasStatus("Selesai"));
    StatusesOfListed(db, mine, ids);
    StatusCountsOfListed(db, mine, ids, s.statusSummary);
    r := Statistics(s);
  }

  /** Listing the selected tasks in any order, the statuses in the list are
      those some selected task has. */
  lemma StatusesOfListed(db: Db, mine: set<Id>, ids: seq<Id>)
    requires mine <= db.tugas.Keys
    requires forall id :: id in ids <==> id in mine
    ensures forall st :: st in StatusesOf(Rows(ids, db.tugas)) <==> exists id :: id in mine && db.tugas[id].status == st
  {
    var rows := Rows(ids, db.tugas);
    forall st ensures st in StatusesOf(rows) <==> exists id :: id in mine && db.tugas[id].status == st {
      if st in StatusesOf(rows) {
        var i :| 0 <= i < |rows| && StatusesOf(rows)[i] == st;
        assert ids[i] in mine && db.tugas[ids[i]].status == st;
      }
      if exists id :: id in mine && db.tugas[id].status == st {
        var id :| id in mine && db.tugas[id].status == st;
        var i :| 0 <= i < |ids| && ids[i] == id;
        assert StatusesOf(rows)[i] == st;
      }
    }
  }

  /** Counting a status among the rows' statuses counts the rows with it. */
  lemma {:induction false} StatusCount(rows: seq<Tugas>, st: string)
    ensures Count(StatusesOf(rows), st) == CountIf(rows, HasStatus(st))
    decreases |rows|
  {
    if |rows| > 0 {
      var n := |rows| - 1;
      StatusCount(rows[..n], st);
      assert StatusesOf(rows)[..n] == StatusesOf(rows[..n]);
    }
  }

  /** Listing the selected tasks without repeats, a status's count among the
      listed rows is the number of selected tasks with that status. */
  lemma StatusCountsOfListed(db: Db, mine: set<Id>, ids: seq<Id>, summary: seq<(string, nat)>)
    requires mine <= db.tugas.Keys && Distinct(ids)
    requires forall id :: id in ids <==> id in mine
    requires forall i :: 0 <= i < |summary| ==> summary[i].1 == Count(StatusesOf(Rows(ids, db.tugas)), summary[i].0)
    ensures forall i :: 0 <= i < |summary| ==> summary[i].1 == |Matching(mine, db.tugas, HasStatus(summary[i].0))|
  {
    forall i | 0 <= i < |summary|
      ensures summary[i].1 == |Matching(mine, db.tugas, HasStatus(summary[i].0))|
    {
      StatusCount(Rows(ids, db.tugas), summary[i].0);
      CountRows(ids, db.tugas, mine, HasStatus(summary[i].0));
    }
  }

  // ---------------------------------------------------------------------------
  // Notifications.

  /** `markNotificationAsRead`: a notification that does not exist or is
      addressed to someone else is 404 with nothing written; the caller's
      own notification becomes read, and nothing else changes. */
  function MarkNotificationAsRead(db: Db, user: User, notificationId: Id): (r: Step<Reply>)
    ensures r.reply == Marked <==>
      notificationId in db.pesertaNotifs && db.pesertaNotifs[notificationId].recipient == user.id
    ensures r.reply != Marked ==> r.reply == NotFound && r.db == db
    ensures r.reply == Marked ==> (
      && r.db.pesertaNotifs.Keys == db.pesertaNotifs.Keys
      && r.db.pesertaNotifs[notificationId].read
      && r.db.pesertaNotifs[notificationId].recipient == db.pesertaNotifs[notificationId].recipient
      && r.db.pesertaNotifs[notificationId].tipe == db.pesertaNotifs[notificationId].tipe
      && (forall id :: id in db.pesertaNotifs && id != notificationId ==> r.db.pesertaNotifs[id] == db.pesertaNotifs[id])
      && r.db == db.(pesertaNotifs := r.db.pesertaNotifs))
  {
    if notificationId in db.pesertaNotifs && db.pesertaNotifs[notificationId].recipient == user.id then
      var n := db.pesertaNotifs[notificationId];
      Step(db.(pesertaNotifs := db.pesertaNotifs[notificationId := n.(read := true)]), Marked)
    else Step(db, NotFound)
  }

  /** Marking the same notification twice leaves the database as marking it
      once did, and answers the same. */
  lemma MarkIsIdempotent(db: Db, user: User, notificationId: Id)
    ensures var once := MarkNotificationAsRead(db, user, notificationId);
      MarkNotificationAsRead(once.db, user, notificationId) == once
  {
  }
}
