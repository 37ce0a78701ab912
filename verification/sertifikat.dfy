/** Certificate templates and certificate issuance: uploading, listing,
    choosing and deleting templates; generating a participant's certificate
    from the active template; reporting and downloading it. */
module Sertifikat {
  import opened Base
  import opened Text
  import opened Store
  import opened Numbering

  datatype Reply =
    | TemplateCreated(id: Id)
    | TemplateList(jumlah: nat, ids: seq<Id>)
    | Done
    | Status(status: Option<string>, filePath: Option<string>)
    | Pdf(source: string)
    | BadRequest
    | NotFound
    | ServerError
  {
    function Code(): nat {
      match this
      case TemplateCreated(_) => 201
      case TemplateList(_, _) => 200
      case Done => 200
      case Status(_, _) => 200
      case Pdf(_) => 200
      case BadRequest => 400
      case NotFound => 404
      case ServerError => 500
    }
  }

  /** No two templates are active at once. */
  ghost predicate AtMostOneActive(db: Db) {
    forall a, b :: a in db.templates && b in db.templates
      && db.templates[a].status == SedangDigunakan && db.templates[b].status == SedangDigunakan
      ==> a == b
  }

  /** `uploadTemplate`: `file` is the path the upload middleware stored the
      document under, absent when no file was accepted. */
  ghost function UploadTemplate(db: Db, file: Option<string>, nama: Option<string>, now: int): (r: Step<Reply>)
    ensures file.None? ==> r.reply == BadRequest && r.db == db
    ensures file.Some? ==> (
      && r.reply.TemplateCreated?
      && r.reply.id !in db.templates
      && r.db == db.(templates := db.templates[r.reply.id := Template(nama, file.value, TidakDigunakan, now)]))
  {
    match file
    case None => Step(db, BadRequest)
    case Some(path) =>
      var id := FreshId(db.templates.Keys);
      Step(db.(templates := db.templates[id := Template(nama, path, TidakDigunakan, now)]), TemplateCreated(id))
  }

  /** A new template is never active, so the single-active rule survives an upload. */
  lemma UploadKeepsOneActive(db: Db, file: Option<string>, nama: Option<string>, now: int)
    requires AtMostOneActive(db)
    ensures AtMostOneActive(UploadTemplate(db, file, nama, now).db)
  {
  }

  /** `getAllTemplates`: every template, newest first, and their number. */
  method GetAllTemplates(db: Db) returns (r: Reply)
    ensures r.TemplateList? && r.jumlah == |r.ids| == |db.templates|
    ensures forall id :: id in r.ids <==> id in db.templates
    ensures SortedDesc(r.ids, db.templates, (t: Template) => t.createdAt)
  {
    var ids := ListDesc(db.templates, db.templates.Keys, (t: Template) => t.createdAt);
    r := TemplateList(|ids|, ids);
  }

  /** Every template set back to 'Tidak Digunakan'. */
  function ResetAll(ts: map<Id, Template>): (r: map<Id, Template>)
    ensures r.Keys == ts.Keys
    ensures forall id :: id in r ==> r[id] == ts[id].(status := TidakDigunakan)
  {
    map id | id in ts :: ts[id].(status := TidakDigunakan)
  }

  /** The templates after the reset and the activation of `id`: only status
      columns differ, and `id` is the one active template when it exists. */
  function Chosen(ts: map<Id, Template>, id: Id): (r: map<Id, Template>)
    ensures r.Keys == ts.Keys
    ensures forall t :: t in ts ==> r[t].(status := TidakDigunakan) == ts[t].(status := TidakDigunakan)
    ensures forall t :: t in r ==> r[t].status == (if t == id then SedangDigunakan else TidakDigunakan)
  {
    var reset := ResetAll(ts);
    if id in reset then reset[id := reset[id].(status := SedangDigunakan)] else reset
  }

  /** `chooseOneTemplate`: reset every template, then activate `id`. The reset
      is not undone when the second update fails on an unknown id. */
  function ChooseOneTemplate(db: Db, id: Id): (r: Step<Reply>)
    ensures r.db.templates.Keys == db.templates.Keys
    ensures r.db == db.(templates := r.db.templates)
    ensures forall t :: t in db.templates ==>
      r.db.templates[t].(status := TidakDigunakan) == db.templates[t].(status := TidakDigunakan)
    ensures id in db.templates ==> (
      && r.reply == Done
      && forall t :: t in r.db.templates ==> (r.db.templates[t].status == SedangDigunakan <==> t == id))
    ensures id !in db.templates ==> (
      && r.reply == ServerError
      && forall t :: t in r.db.templates ==> r.db.templates[t].status == TidakDigunakan)
  {
    Step(db.(templates := Chosen(db.templates, id)), if id in db.templates then Done else ServerError)
  }

  /** Whatever the outcome, at most one template is active afterwards. */
  lemma ChooseKeepsOneActive(db: Db, id: Id)
    ensures AtMostOneActive(ChooseOneTemplate(db, id).db)
  {
  }

  /** `deleteTemplate`: the record and its stored document go. */
  function DeleteTemplate(db: Db, id: Id): (r: Step<Reply>)
    ensures id !in db.templates ==> r.reply == NotFound && r.db == db
    ensures id in db.templates ==> (
      && r.reply == Done
      && r.db == db.(templates := db.templates - {id}, files := db.files - {db.templates[id].filePath}))
  {
    if id !in db.templates then Step(db, NotFound)
    else Step(db.(templates := db.templates - {id}, files := db.files - {db.templates[id].filePath}), Done)
  }

  lemma DeleteKeepsOneActive(db: Db, id: Id)
    requires AtMostOneActive(db)
    ensures AtMostOneActive(DeleteTemplate(db, id).db)
  {
  }

  // ---------------------------------------------------------------------------
  // Issuing a certificate.

  /** The participant numbers handed out so far (`nomor_peserta` not null). */
  ghost function IssuedNumbers(db: Db): set<string> {
    set id | id in db.peserta && db.peserta[id].nomorPeserta.Some? :: db.peserta[id].nomorPeserta.value
  }

  /** No two participants carry the same number. */
  ghost predicate UniqueNumbers(db: Db) {
    forall a, b :: a in db.peserta && b in db.peserta && a != b
      && db.peserta[a].nomorPeserta.Some? && db.peserta[b].nomorPeserta.Some?
      ==> db.peserta[a].nomorPeserta != db.peserta[b].nomorPeserta
  }

  /** The active template `findFirst` returns, if any. */
  ghost function ActiveTemplate(db: Db): (t: Option<Template>)
    ensures t.Some? <==> exists id :: id in db.templates && db.templates[id].status == SedangDigunakan
    ensures t.Some? ==> t.value in db.templates.Values && t.value.status == SedangDigunakan
  {
    if exists id :: id in db.templates && db.templates[id].status == SedangDigunakan then
      var id :| id in db.templates && db.templates[id].status == SedangDigunakan;
      Some(db.templates[id])
    else None
  }

  /** Where the rendered document is written. */
  function CertificatePath(now: nat): (p: string)
    ensures StartsWith(p, "uploads/sertifikat/") && EndsWith(p, "-sertifikat.docx")
  {
    "uploads/sertifikat/" + NatToString(now) + "-sertifikat.docx"
  }

  /** Everything the rendering needs is there: the participant's group, and
      an active template whose document is on disk. */
  ghost predicate CanRender(db: Db, p: Peserta) {
    && ActiveTemplate(db).Some?
    && ActiveTemplate(db).value.filePath in db.files
    && p.kelompok.Some? && p.kelompok.value in db.kelompok
  }

  /** `generateSertifikat`. An unknown participant fails on reading its
      `nama_penggilan` (500); an empty nickname is refused (400); a missing
      active template, template document or group, or a failed rendering
      (`renderOk` false) ends in 500. Only then is the document written and
      the participant's number, certificate path and certificate status set.
      The number is the one the handler computes: the top of a descending
      sort of the stored numbers as text, `parseInt` plus one, padded. */
  ghost function GenerateSertifikat(db: Db, pesertaId: Id, renderOk: bool, now: nat): (r: Step<Reply>)
    ensures pesertaId !in db.peserta ==> r.reply == ServerError
    ensures pesertaId in db.peserta && !Present(db.peserta[pesertaId].bio.namaPenggilan) ==> r.reply == BadRequest
    ensures (pesertaId in db.peserta && Present(db.peserta[pesertaId].bio.namaPenggilan)
             && !(CanRender(db, db.peserta[pesertaId]) && renderOk)) ==> r.reply == ServerError
    ensures r.reply == Done <==>
      pesertaId in db.peserta && Present(db.peserta[pesertaId].bio.namaPenggilan)
      && CanRender(db, db.peserta[pesertaId]) && renderOk
    ensures r.reply != Done ==> r.db == db
    ensures r.reply == Done ==>
      r.db == db.(peserta := db.peserta[pesertaId := db.peserta[pesertaId].(
           nomorPeserta := Some(NextNomorAsWritten(IssuedNumbers(db))),
           sertifikat := Some(CertificatePath(now)),
           statusSertifikat := Some("Selesai"))],
         files := db.files + {CertificatePath(now)})
  {
    if pesertaId !in db.peserta then Step(db, ServerError)
    else
      var p := db.peserta[pesertaId];
      if !Present(p.bio.namaPenggilan) then Step(db, BadRequest)
      else if !CanRender(db, p) || !renderOk then Step(db, ServerError)
      else
        var path := CertificatePath(now);
        var p' := p.(nomorPeserta := Some(NextNomorAsWritten(IssuedNumbers(db))), sertifikat := Some(path),
                     statusSertifikat := Some("Selesai"));
        Step(db.(peserta := db.peserta[pesertaId := p'], files := db.files + {path}), Done)
  }

  /** The handler with the numeric allocation: the same outcome and the same
      writes, except that the number given out is one more than the numeric
      maximum, which no participant holds yet. */
  ghost function GenerateSertifikatNumeric(db: Db, pesertaId: Id, renderOk: bool, now: nat): (r: Step<Reply>)
    ensures var g := GenerateSertifikat(db, pesertaId, renderOk, now);
      && r.reply == g.reply
      && (r.reply != Done ==> r.db == db)
      && (r.reply == Done ==>
        && NextNomor(IssuedNumbers(db)) !in IssuedNumbers(db)
        && r.db == g.db.(peserta := g.db.peserta[pesertaId :=
             g.db.peserta[pesertaId].(nomorPeserta := Some(NextNomor(IssuedNumbers(db))))]))
  {
    var g := GenerateSertifikat(db, pesertaId, renderOk, now);
    if g.reply != Done then g
    else
      NextNomorIsNew(IssuedNumbers(db));
      var p := g.db.peserta[pesertaId];
      Step(g.db.(peserta := g.db.peserta[pesertaId := p.(nomorPeserta := Some(NextNomor(IssuedNumbers(db))))]), Done)
  }

  /** Issuing with the numeric allocation never gives out a number another
      participant holds. */
  lemma {:induction false} NumericKeepsNumbersUnique(db: Db, pesertaId: Id, renderOk: bool, now: nat)
    requires UniqueNumbers(db)
    ensures UniqueNumbers(GenerateSertifikatNumeric(db, pesertaId, renderOk, now).db)
  {
    var r := GenerateSertifikatNumeric(db, pesertaId, renderOk, now);
    if r.reply == Done {
      forall a, b | a in r.db.peserta && b in r.db.peserta && a != b
        && r.db.peserta[a].nomorPeserta.Some? && r.db.peserta[b].nomorPeserta.Some?
        ensures r.db.peserta[a].nomorPeserta != r.db.peserta[b].nomorPeserta
      {
        if a == pesertaId {
          assert db.peserta[b].nomorPeserta.value in IssuedNumbers(db);
        } else if b == pesertaId {
          assert db.peserta[a].nomorPeserta.value in IssuedNumbers(db);
        }
      }
    }
  }

  /** While every stored number is a padded number below 1000, the handler as
      written and the numeric one do exactly the same. */
  lemma GenerateAgreesBelow1000(db: Db, pesertaId: Id, renderOk: bool, now: nat)
    requires forall v :: v in IssuedNumbers(db) ==> Canonical(v)
    ensures GenerateSertifikat(db, pesertaId, renderOk, now) == GenerateSertifikatNumeric(db, pesertaId, renderOk, now)
  {
    AsWrittenAgreesBelow1000(IssuedNumbers(db));
    SameNumberSameIssue(db, pesertaId, renderOk, now);
  }

  /** Where both allocations give the same number, both handlers do the same. */
  lemma SameNumberSameIssue(db: Db, pesertaId: Id, renderOk: bool, now: nat)
    requires NextNomorAsWritten(IssuedNumbers(db)) == NextNomor(IssuedNumbers(db))
    ensures GenerateSertifikat(db, pesertaId, renderOk, now) == GenerateSertifikatNumeric(db, pesertaId, renderOk, now)
  {
    var g := GenerateSertifikat(db, pesertaId, renderOk, now);
    if g.reply == Done {
      var p := g.db.peserta[pesertaId];
      assert p.(nomorPeserta := Some(NextNomor(IssuedNumbers(db)))) == p;
      assert g.db.peserta[pesertaId := p] == g.db.peserta;
    }
  }

  /** Issuing a certificate never gives out a number another participant
      holds, as long as every stored number is a padded number below 1000. */
  lemma {:induction false} GenerateKeepsNumbersUnique(db: Db, pesertaId: Id, renderOk: bool, now: nat)
    requires UniqueNumbers(db)
    requires forall v :: v in IssuedNumbers(db) ==> Canonical(v)
    ensures UniqueNumbers(GenerateSertifikat(db, pesertaId, renderOk, now).db)
  {
    GenerateAgreesBelow1000(db, pesertaId, renderOk, now);
    NumericKeepsNumbersUnique(db, pesertaId, renderOk, now);
  }

  /** With "999" and "1000" stored, a successful issue hands out "1000" a
      second time, so two participants end up with the same number. */
  lemma GenerateReissues1000(db: Db, pesertaId: Id, holder: Id, now: nat)
    requires pesertaId in db.peserta && Present(db.peserta[pesertaId].bio.namaPenggilan)
    requires CanRender(db, db.peserta[pesertaId])
    requires IssuedNumbers(db) == {"999", "1000"}
    requires holder in db.peserta && holder != pesertaId && db.peserta[holder].nomorPeserta == Some("1000")
    ensures var r := GenerateSertifikat(db, pesertaId, true, now);
      && r.reply == Done
      && r.db.peserta[pesertaId].nomorPeserta == Some("1000")
      && r.db.peserta[holder].nomorPeserta == Some("1000")
      && !UniqueNumbers(r.db)
  {
    AsWrittenRepeats1000();
  }

  /** `checkSertifikatStatus` for the caller: the status and path once a
      certificate exists, otherwise the status with 'Belum Digenerate' as
      its default. */
  function CheckSertifikatStatus(db: Db, user: User): (r: Reply)
    ensures user.id !in db.peserta <==> r == NotFound
    ensures user.id in db.peserta ==> r.Status?
    ensures r.Status? ==> var p := db.peserta[user.id];
      && (r.filePath.Some? <==> Present(p.sertifikat))
      && (Present(p.sertifikat) ==> r.status == p.statusSertifikat && r.filePath == p.sertifikat)
      && (!Present(p.sertifikat) ==> r.status == Some(OrKeep(p.statusSertifikat, "Belum Digenerate")))
  {
    if user.id !in db.peserta then NotFound
    else
      var p := db.peserta[user.id];
      if Present(p.sertifikat) then Status(p.statusSertifikat, p.sertifikat)
      else Status(Some(OrKeep(p.statusSertifikat, "Belum Digenerate")), None)
  }

  /** Whose certificate `downloadSertifikat` serves: a participant ('User')
      always gets their own, staff get the one named in the path. */
  function DownloadTarget(user: User, pathId: Id): (id: Id)
    ensures user.role == "User" ==> id == user.id
    ensures user.role != "User" ==> id == pathId
  {
    if user.role == "User" then user.id else pathId
  }

  /** `downloadSertifikat`: 404 without a certificate; 500 when the document
      is not on disk or the PDF conversion (`convertOk`) fails. */
  function DownloadSertifikat(db: Db, user: User, pathId: Id, convertOk: bool): (r: Reply)
    ensures var id := DownloadTarget(user, pathId);
      && (r == NotFound <==> id !in db.peserta || !Present(db.peserta[id].sertifikat))
      && (r.Pdf? <==> id in db.peserta && Present(db.peserta[id].sertifikat)
                      && db.peserta[id].sertifikat.value in db.files && convertOk)
      && (r.Pdf? ==> r.source == db.peserta[id].sertifikat.value)
  {
    var id := DownloadTarget(user, pathId);
    if id !in db.peserta || !Present(db.peserta[id].sertifikat) then NotFound
    else if db.peserta[id].sertifikat.value !in db.files || !convertOk then ServerError
    else Pdf(db.peserta[id].sertifikat.value)
  }

  /** A successful issue is what the status report and the download then see. */
  lemma GeneratedIsReported(db: Db, pesertaId: Id, renderOk: bool, now: nat, user: User)
    requires GenerateSertifikat(db, pesertaId, renderOk, now).reply == Done
    requires user.id == pesertaId
    ensures var db' := GenerateSertifikat(db, pesertaId, renderOk, now).db;
      && CheckSertifikatStatus(db', user) == Status(Some("Selesai"), Some(CertificatePath(now)))
      && DownloadSertifikat(db', user, pesertaId, true) == Pdf(CertificatePath(now))
  {
    var path := CertificatePath(now);
    assert path != "" by { assert |path| >= |"uploads/sertifikat/"|; }
  }

  /** The template listing around an upload: afterwards it holds the
      templates it held before and the new one, and counts one more. */
  method ListingAfterUpload(db: Db, after: Db, file: Option<string>, nama: Option<string>, now: int)
    returns (before: Reply, listed: Reply)
    requires file.Some? && after == UploadTemplate(db, file, nama, now).db
    ensures before.TemplateList? && listed.TemplateList?
    ensures var id := UploadTemplate(db, file, nama, now).reply.id;
      && id !in before.ids
      && (forall t :: t in listed.ids <==> t in before.ids || t == id)
      && listed.jumlah == before.jumlah + 1
  {
    before := GetAllTemplates(db);
    listed := GetAllTemplates(after);
  }
}
