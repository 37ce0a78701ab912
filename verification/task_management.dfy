/** The staff side of tasks (`managementTugas.controller.js`): giving,
    editing, deleting and listing tasks, with the ownership rule that a
    'Pegawai' may only touch the tasks they gave. */
module TaskManagement {
  import opened Base
  import opened Store

  datatype Reply =
    | Created(id: Id)
    | Updated(id: Id)
    | Deleted
    | TaskList(ids: set<Id>)
    | BadRequest
    | NotFound
    | Forbidden
    | ServerError
  {
    function Code(): nat {
      match this
      case Created(_) => 201
      case Updated(_) => 200
      case Deleted => 200
      case TaskList(_) => 200
      case BadRequest => 400
      case NotFound => 404
      case Forbidden => 403
      case ServerError => 500
    }
  }

  /** The body of a create or edit request. `dateOf` below stands for
      `new Date(text)`: `None` is an Invalid Date, which the database
      refuses. */
  datatype TugasForm = TugasForm(deskripsi: Option<string>, deadline: Option<string>, status: Option<string>)

  /** `createTugas`: no description or no deadline is 400, an unknown
      participant 404. A deadline that is not a date reaches the database,
      which refuses it (500). Otherwise one task is added, given by the
      caller to the participant in the path, with status 'Pending'. */
  ghost function CreateTugas(db: Db, pesertaId: Id, user: User, f: TugasForm, dateOf: string -> Option<int>): (r: Step<Reply>)
    ensures r.reply == BadRequest <==> !Present(f.deskripsi) || !Present(f.deadline)
    ensures r.reply == NotFound <==> Present(f.deskripsi) && Present(f.deadline) && pesertaId !in db.peserta
    ensures r.reply == ServerError <==>
      Present(f.deskripsi) && Present(f.deadline) && pesertaId in db.peserta && dateOf(f.deadline.value).None?
    ensures !r.reply.Created? ==> r.db == db
    ensures r.reply.Created? ==> (
      && r.reply.id !in db.tugas
      && dateOf(f.deadline.value).Some?
      && r.db == db.(tugas := db.tugas[r.reply.id :=
           Tugas(pesertaId, user.id, f.deskripsi.value, dateOf(f.deadline.value).value, "Pending", None)]))
    ensures r.reply in {BadRequest, NotFound, ServerError} || r.reply.Created?
  {
    if !Present(f.deskripsi) || !Present(f.deadline) then Step(db, BadRequest)
    else if pesertaId !in db.peserta then Step(db, NotFound)
    else match dateOf(f.deadline.value)
      case None => Step(db, ServerError)
      case Some(d) =>
        var id := FreshId(db.tugas.Keys);
        Step(db.(tugas := db.tugas[id := Tugas(pesertaId, user.id, f.deskripsi.value, d, "Pending", None)]), Created(id))
  }

  /** The guard edit and delete share: a missing id is 400, an unknown task
      404, and a caller whose role is 'Pegawai' and who did not give the
      task 403. Every other role passes. */
  function Guard(db: Db, tugasId: Option<Id>, user: User): (r: Option<Reply>)
    ensures r.None? <==> (
      && Present(tugasId) && tugasId.value in db.tugas
      && (user.role == "Pegawai" ==> db.tugas[tugasId.value].idPegawai == user.id))
    ensures !Present(tugasId) ==> r == Some(BadRequest)
    ensures Present(tugasId) && tugasId.value !in db.tugas ==> r == Some(NotFound)
    ensures Present(tugasId) && tugasId.value in db.tugas && r.Some? ==> r == Some(Forbidden)
  {
    if !Present(tugasId) then Some(BadRequest)
    else if tugasId.value !in db.tugas then Some(NotFound)
    else if user.role == "Pegawai" && db.tugas[tugasId.value].idPegawai != user.id then Some(Forbidden)
    else None
  }

  /** The edited task: a description or status left out keeps the old one;
      a deadline left out keeps the old one and a given one must be a date. */
  function EditedTugas(t: Tugas, f: TugasForm, dateOf: string -> Option<int>): (r: Option<Tugas>)
    ensures r.None? <==> Present(f.deadline) && dateOf(f.deadline.value).None?
    ensures r.Some? ==> (
      && r.value.deskripsi == OrKeep(f.deskripsi, t.deskripsi)
      && r.value.status == OrKeep(f.status, t.status)
      && r.value.deadline == (if Present(f.deadline) then dateOf(f.deadline.value).value else t.deadline)
      && r.value.idPeserta == t.idPeserta && r.value.idPegawai == t.idPegawai
      && r.value.catatan == t.catatan)
  {
    var deadline := if Present(f.deadline) then dateOf(f.deadline.value) else Some(t.deadline);
    match deadline
    case None => None
    case Some(d) => Some(t.(deskripsi := OrKeep(f.deskripsi, t.deskripsi), deadline := d, status := OrKeep(f.status, t.status)))
  }

  /** `editTugas`: past the guard, only that task changes, as `EditedTugas`
      says; an unreadable deadline is refused by the database (500). */
  function EditTugas(db: Db, tugasId: Option<Id>, user: User, f: TugasForm, dateOf: string -> Option<int>): (r: Step<Reply>)
    ensures Guard(db, tugasId, user).Some? ==> r == Step(db, Guard(db, tugasId, user).value)
    ensures !r.reply.Updated? ==> r.db == db
    ensures r.reply.Updated? <==>
      Guard(db, tugasId, user).None? && EditedTugas(db.tugas[tugasId.value], f, dateOf).Some?
    ensures r.reply.Updated? ==> (
      && r.reply.id == tugasId.value
      && r.db == db.(tugas := db.tugas[tugasId.value := EditedTugas(db.tugas[tugasId.value], f, dateOf).value]))
    ensures Guard(db, tugasId, user).None? && !r.reply.Updated? ==> r.reply == ServerError
  {
    match Guard(db, tugasId, user)
    case Some(refusal) => Step(db, refusal)
    case None =>
      var id := tugasId.value;
      match EditedTugas(db.tugas[id], f, dateOf)
      case None => Step(db, ServerError)
      case Some(t') => Step(db.(tugas := db.tugas[id := t']), Updated(id))
  }

  /** `deleteTugas`: past the guard, exactly that task is removed. */
  function DeleteTugas(db: Db, tugasId: Option<Id>, user: User): (r: Step<Reply>)
    ensures Guard(db, tugasId, user).Some? ==> r == Step(db, Guard(db, tugasId, user).value)
    ensures r.reply == Deleted <==> Guard(db, tugasId, user).None?
    ensures r.reply == Deleted ==> (
      && tugasId.value in db.tugas
      && r.db.tugas.Keys == db.tugas.Keys - {tugasId.value}
      && (forall id :: id in r.db.tugas ==> r.db.tugas[id] == db.tugas[id])
      && r.db == db.(tugas := r.db.tugas))
  {
    match Guard(db, tugasId, user)
    case Some(refusal) => Step(db, refusal)
    case None => Step(db.(tugas := db.tugas - {tugasId.value}), Deleted)
  }

  /** `getAllTugas`: 404 when no task exists, otherwise every task. */
  function GetAllTugas(db: Db): (r: Reply)
    ensures r == NotFound <==> |db.tugas| == 0
    ensures r.TaskList? ==> r.ids == db.tugas.Keys && r.ids != {}
  {
    if |db.tugas| == 0 then NotFound else TaskList(db.tugas.Keys)
  }

  /** The ownership rule: a 'Pegawai' caller can neither edit nor delete a
      task someone else gave, while an 'Admin' caller can delete any
      existing task and edit it with any form whose deadline, when given,
      reads as a date; an unreadable deadline is refused with 500. */
  lemma OnlyGiversOrOthersMayChange(db: Db, tugasId: Id, user: User, f: TugasForm, dateOf: string -> Option<int>)
    requires tugasId != "" && tugasId in db.tugas
    ensures user.role == "Pegawai" && db.tugas[tugasId].idPegawai != user.id ==> (
      && EditTugas(db, Some(tugasId), user, f, dateOf) == Step(db, Forbidden)
      && DeleteTugas(db, Some(tugasId), user) == Step(db, Forbidden))
    ensures user.role == "Admin" ==> (
      && DeleteTugas(db, Some(tugasId), user).reply == Deleted
      && (EditedTugas(db.tugas[tugasId], f, dateOf).Some? ==> EditTugas(db, Some(tugasId), user, f, dateOf).reply == Updated(tugasId))
      && (EditedTugas(db.tugas[tugasId], f, dateOf).None? ==> EditTugas(db, Some(tugasId), user, f, dateOf) == Step(db, ServerError)))
  {
  }

  /** Editing with an empty body rewrites the task with its own values. */
  lemma EmptyEditKeepsTask(db: Db, tugasId: Id, user: User, dateOf: string -> Option<int>)
    requires Guard(db, Some(tugasId), user).None?
    ensures EditTugas(db, Some(tugasId), user, TugasForm(None, None, None), dateOf) == Step(db, Updated(tugasId))
  {
    assert db.tugas[tugasId := db.tugas[tugasId]] == db.tugas;
  }

  /** A task created and then deleted by an Admin leaves the tasks as they
      were. */
  lemma CreateThenDelete(db: Db, pesertaId: Id, user: User, f: TugasForm, dateOf: string -> Option<int>)
    requires user.role == "Admin"
    ensures var c := CreateTugas(db, pesertaId, user, f, dateOf);
      c.reply.Created? ==> DeleteTugas(c.db, Some(c.reply.id), user).db == db
  {
    var c := CreateTugas(db, pesertaId, user, f, dateOf);
    if c.reply.Created? {
      var id := c.reply.id;
      assert c.db.tugas - {id} == db.tugas;
    }
  }

  /** After a creation the task listing holds the earlier tasks and the new one. */
  lemma CreatedTaskIsListed(db: Db, pesertaId: Id, user: User, f: TugasForm, dateOf: string -> Option<int>)
    ensures var c := CreateTugas(db, pesertaId, user, f, dateOf);
      c.reply.Created? ==> GetAllTugas(c.db) == TaskList(db.tugas.Keys + {c.reply.id})
  {
    var c := CreateTugas(db, pesertaId, user, f, dateOf);
    if c.reply.Created? {
      AddRow(db.tugas, c.reply.id, c.db.tugas[c.reply.id]);
    }
  }

  /** After a deletion the task listing holds the other tasks, or answers
      404 when the deleted task was the last. */
  lemma DeletedTaskIsUnlisted(db: Db, tugasId: Option<Id>, user: User)
    ensures var d := DeleteTugas(db, tugasId, user);
      d.reply == Deleted ==>
        GetAllTugas(d.db) == (if db.tugas.Keys == {tugasId.value} then NotFound
                              else TaskList(db.tugas.Keys - {tugasId.value}))
  {
    var d := DeleteTugas(db, tugasId, user);
    if d.reply == Deleted {
      var id := tugasId.value;
      if db.tugas.Keys == {id} {
        assert d.db.tugas.Keys == {};
        assert |d.db.tugas| == |d.db.tugas.Keys| == 0;
      } else {
        var other :| other in db.tugas.Keys && other != id;
        assert other in d.db.tugas;
      }
    }
  }
}
