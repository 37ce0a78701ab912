/** The review of registered groups (`statusRegistrasiKelompok.js`): the
    listing, and the reject / approve state machine with its notification
    mail. */
module RegistrationStatus {
  import opened Base
  import opened Store

  datatype Reply =
    | GroupList(total: nat, ids: set<Id>)
    | Empty
    | Done
    | BadRequest
    | NotFound
    | ServerError
  {
    function Code(): nat {
      match this
      case GroupList(_, _) => 200
      case Empty => 404
      case Done => 200
      case BadRequest => 400
      case NotFound => 404
      case ServerError => 500
    }
  }

  /** `getKelompokList`: 404 (with a total of 0) when no group has
      registered, otherwise every group and their number. */
  function GetKelompokList(db: Db): (r: Reply)
    ensures |db.kelompok| == 0 <==> r == Empty
    ensures r.GroupList? ==> r.ids == db.kelompok.Keys && r.total == |r.ids| > 0
  {
    if |db.kelompok| == 0 then Empty else GroupList(|db.kelompok.Keys|, db.kelompok.Keys)
  }

  /** A group added under a new id is listed, and counted, with the others. */
  lemma AddedGroupIsListed(db: Db, id: Id, k: Kelompok)
    requires id !in db.kelompok
    ensures GetKelompokList(db.(kelompok := db.kelompok[id := k]))
      == GroupList(|db.kelompok| + 1, db.kelompok.Keys + {id})
  {
    AddRow(db.kelompok, id, k);
  }

  /** The guards both handlers apply first: a missing id (400), an unknown
      group (404), a group already in the target status (400). */
  function Guard(db: Db, id: Option<Id>, target: GroupStatus): (r: Option<Reply>)
    ensures r.None? <==> Present(id) && id.value in db.kelompok && db.kelompok[id.value].status != target
    ensures !Present(id) ==> r == Some(BadRequest)
    ensures Present(id) && id.value !in db.kelompok ==> r == Some(NotFound)
    ensures Present(id) && id.value in db.kelompok && db.kelompok[id.value].status == target ==> r == Some(BadRequest)
  {
    if !Present(id) then Some(BadRequest)
    else if id.value !in db.kelompok then Some(NotFound)
    else if db.kelompok[id.value].status == target then Some(BadRequest)
    else None
  }

  /** `rejectKelompok`: the mail goes out first; when it fails (`mailOk`
      false) the answer is 500 and the group keeps its status. Only then is
      the status set to 'Ditolak'. */
  function RejectKelompok(db: Db, id: Option<Id>, mailOk: bool): (r: Step<Reply>)
    ensures r.reply != Done ==> r.db == db
    ensures r.reply == Done <==> Guard(db, id, Ditolak).None? && mailOk
    ensures Guard(db, id, Ditolak).None? && !mailOk ==> r.reply == ServerError
    ensures Guard(db, id, Ditolak).Some? ==> r.reply == Guard(db, id, Ditolak).value
    ensures r.reply == Done ==>
      r.db == db.(kelompok := db.kelompok[id.value := db.kelompok[id.value].(status := Ditolak)])
  {
    match Guard(db, id, Ditolak)
    case Some(refusal) => Step(db, refusal)
    case None =>
      if !mailOk then Step(db, ServerError)
      else
        var k := db.kelompok[id.value];
        Step(db.(kelompok := db.kelompok[id.value := k.(status := Ditolak)]), Done)
  }

  /** The group number handed out on approval: the institution, a dash and
      the first eight characters of a fresh UUID. */
  function NomorKelompok(instansi: string, uuid: string): (n: string)
    ensures |n| == |instansi| + 1 + (if |uuid| >= 8 then 8 else |uuid|)
    ensures n[..|instansi|] == instansi && n[|instansi|] == '-'
    ensures n[|instansi| + 1..] == if |uuid| >= 8 then uuid[..8] else uuid
  {
    instansi + "-" + (if |uuid| >= 8 then uuid[..8] else uuid)
  }

  /** `approveKelompok`: the status becomes 'Diterima' and the group number
      is written before the mail is sent, so a failed mail (500) leaves the
      group approved. */
  function ApproveKelompok(db: Db, id: Option<Id>, uuid: string, mailOk: bool): (r: Step<Reply>)
    ensures Guard(db, id, Diterima).Some? ==> r.reply == Guard(db, id, Diterima).value && r.db == db
    ensures Guard(db, id, Diterima).None? ==> (
      && r.reply == (if mailOk then Done else ServerError)
      && var k := db.kelompok[id.value];
      && r.db == db.(kelompok := db.kelompok[id.value :=
           k.(status := Diterima, nomorKelompok := Some(NomorKelompok(k.instansi, uuid)))]))
  {
    match Guard(db, id, Diterima)
    case Some(refusal) => Step(db, refusal)
    case None =>
      var k := db.kelompok[id.value];
      var db' := db.(kelompok := db.kelompok[id.value :=
                   k.(status := Diterima, nomorKelompok := Some(NomorKelompok(k.instansi, uuid)))]);
      Step(db', if mailOk then Done else ServerError)
  }

  /** Only a self-transition is refused: a rejected group can still be
      approved and an approved one rejected, given a working mail. */
  lemma OnlySelfTransitionsRefused(db: Db, id: Id, uuid: string)
    requires id in db.kelompok && id != ""
    ensures db.kelompok[id].status == Ditolak ==>
      RejectKelompok(db, Some(id), true).reply == BadRequest
      && ApproveKelompok(db, Some(id), uuid, true).reply == Done
    ensures db.kelompok[id].status == Diterima ==>
      ApproveKelompok(db, Some(id), uuid, true).reply == BadRequest
      && RejectKelompok(db, Some(id), true).reply == Done
  {
  }
}
