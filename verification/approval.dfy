/** The reject / approve handlers the admin routes actually use
    (`approvalKelompok.controller.js`). They make the same first checks as
    the review handlers, but a failing mail is caught by the outer handler,
    and approval refers to a UUID generator the file never imports. */
module Approval {
  import opened Base
  import opened Store
  import RS = RegistrationStatus

  /** `rejectKelompok`: mail first, status second; a throwing mail lands in
      the outer catch (500) before the status is written. */
  function RejectKelompok(db: Db, id: Option<Id>, mailOk: bool): (r: Step<RS.Reply>)
    ensures r.reply != RS.Done ==> r.db == db
    ensures RS.Guard(db, id, Ditolak).Some? ==> r.reply == RS.Guard(db, id, Ditolak).value
    ensures RS.Guard(db, id, Ditolak).None? ==> (
      && r.reply == (if mailOk then RS.Done else RS.ServerError)
      && (mailOk ==> r.db == db.(kelompok := db.kelompok[id.value := db.kelompok[id.value].(status := Ditolak)])))
  {
    match RS.Guard(db, id, Ditolak)
    case Some(refusal) => Step(db, refusal)
    case None =>
      if !mailOk then Step(db, RS.ServerError)
      else
        var k := db.kelompok[id.value];
        Step(db.(kelompok := db.kelompok[id.value := k.(status := Ditolak)]), RS.Done)
  }

  /** `approveKelompok`: past the guard, building the group number calls
      `uuidv4`, which is not in scope; the `ReferenceError` is caught (500)
      before anything is written. */
  function ApproveKelompok(db: Db, id: Option<Id>): (r: Step<RS.Reply>)
    ensures r.db == db
    ensures r.reply != RS.Done
    ensures RS.Guard(db, id, Diterima).Some? ==> r.reply == RS.Guard(db, id, Diterima).value
    ensures RS.Guard(db, id, Diterima).None? ==> r.reply == RS.ServerError
  {
    match RS.Guard(db, id, Diterima)
    case Some(refusal) => Step(db, refusal)
    case None => Step(db, RS.ServerError)
  }

  /** The routed rejection behaves exactly as the review module's one. */
  lemma RejectAgrees(db: Db, id: Option<Id>, mailOk: bool)
    ensures RejectKelompok(db, id, mailOk) == RS.RejectKelompok(db, id, mailOk)
  {
  }

  /** The routed approval never approves: where the review module's
      approval changes the group, this one answers 500 and changes nothing;
      everywhere else the two agree. */
  lemma ApproveNeverApproves(db: Db, id: Option<Id>, uuid: string, mailOk: bool)
    ensures RS.ApproveKelompok(db, id, uuid, mailOk).db != db <==> RS.Guard(db, id, Diterima).None?
    ensures RS.ApproveKelompok(db, id, uuid, mailOk).db != db ==> ApproveKelompok(db, id) == Step(db, RS.ServerError)
    ensures RS.ApproveKelompok(db, id, uuid, mailOk).db == db ==>
      ApproveKelompok(db, id) == RS.ApproveKelompok(db, id, uuid, mailOk)
  {
    if RS.Guard(db, id, Diterima).None? {
      var g := id.value;
      assert RS.ApproveKelompok(db, id, uuid, mailOk).db.kelompok[g].status != db.kelompok[g].status;
    }
  }
}
