/** Group registration (`registerKelompok`): the validation chain over the
    form and the two uploaded letters, which uploads are removed on which
    refusal, and the group record created. */
module Registration {
  import opened Base
  import opened Text
  import opened Store
  import RegistrationStatus
  import SuratUpload

  /** One file the upload middleware accepted: its form field and the path
      it was stored under. */
  datatype Upload = Upload(fieldname: string, path: string)

  datatype RegistrationForm = RegistrationForm(
    email: Option<string>,
    namaKetua: Option<string>,
    jumlahAnggota: Option<string>,
    instansi: Option<string>)

  datatype Refusal = MissingField | WrongFileCount | NotGmail | TooFewMembers | EmailExists

  datatype Reply = Created(id: Id) | BadRequest(why: Refusal) | ServerError {
    function Code(): nat {
      match this
      case Created(_) => 201
      case BadRequest(_) => 400
      case ServerError => 500
    }
  }

  /** The paths of the uploads. */
  function Paths(files: seq<Upload>): (ps: set<string>)
    ensures forall p :: p in ps <==> exists i :: 0 <= i < |files| && files[i].path == p
  {
    set i | 0 <= i < |files| :: files[i].path
  }

  /** `files.find(f => f.fieldname === name)?.path`: the first upload of
      that field. */
  function FindPath(files: seq<Upload>, name: string): (r: Option<string>)
    ensures r.None? <==> forall i :: 0 <= i < |files| ==> files[i].fieldname != name
    ensures r.Some? ==> exists i :: (
      && 0 <= i < |files| && files[i].fieldname == name && files[i].path == r.value
      && forall j :: 0 <= j < i ==> files[j].fieldname != name)
    decreases |files|
  {
    if |files| == 0 then None
    else if files[0].fieldname == name then Some(files[0].path)
    else
      var r := FindPath(files[1..], name);
      if r.Some? then
        var i :| 0 <= i < |files[1..]| && files[1..][i].fieldname == name && files[1..][i].path == r.value
          && forall j :: 0 <= j < i ==> files[1..][j].fieldname != name;
        assert files[i + 1] == files[1..][i];
        assert forall j :: 1 <= j < i + 1 ==> files[j] == files[1..][j - 1];
        r
      else
        assert forall j :: 1 <= j < |files| ==> files[j] == files[1..][j - 1];
        r
  }

  ghost predicate GroupEmailUsed(db: Db, email: string) {
    exists id :: id in db.kelompok && db.kelompok[id].email == email
  }

  /** No two groups registered with the same e-mail address. */
  ghost predicate UniqueGroupEmails(db: Db) {
    forall a, b :: a in db.kelompok && b in db.kelompok && a != b ==> db.kelompok[a].email != db.kelompok[b].email
  }

  /** The first check: every field truthy and at least one upload. */
  predicate Filled(f: RegistrationForm, files: seq<Upload>) {
    Present(f.email) && Present(f.namaKetua) && Present(f.jumlahAnggota) && Present(f.instansi) && |files| > 0
  }

  /** `registerKelompok`. A missing field or no upload: 400. Not exactly two
      uploads: both removed, 400. A non-gmail address or a member count that
      reads below 1: 400 with the uploads left on disk. An address already
      registered: uploads removed, 400. A member count `parseInt` cannot
      read reaches the database as `NaN`, which it refuses: uploads removed,
      500. Otherwise one group is created with the letters found by field
      name and the review status left at its default. */
  ghost function RegisterKelompok(db: Db, f: RegistrationForm, files: seq<Upload>): (r: Step<Reply>)
    ensures r.reply == BadRequest(MissingField) <==> !Filled(f, files)
    ensures r.reply == BadRequest(WrongFileCount) <==> Filled(f, files) && |files| != 2
    ensures r.reply == BadRequest(NotGmail) <==>
      Filled(f, files) && |files| == 2 && !EndsWith(f.email.value, "@gmail.com")
    ensures r.reply == BadRequest(TooFewMembers) <==>
      && Filled(f, files) && |files| == 2 && EndsWith(f.email.value, "@gmail.com")
      && ParseInt(f.jumlahAnggota.value).Some? && ParseInt(f.jumlahAnggota.value).value < 1
    ensures r.reply == BadRequest(EmailExists) <==>
      && Filled(f, files) && |files| == 2 && EndsWith(f.email.value, "@gmail.com")
      && !(ParseInt(f.jumlahAnggota.value).Some? && ParseInt(f.jumlahAnggota.value).value < 1)
      && GroupEmailUsed(db, f.email.value)
    ensures r.reply == ServerError <==>
      && Filled(f, files) && |files| == 2 && EndsWith(f.email.value, "@gmail.com")
      && ParseInt(f.jumlahAnggota.value).None? && !GroupEmailUsed(db, f.email.value)
    ensures r.reply.Created? <==>
      && Filled(f, files) && |files| == 2 && EndsWith(f.email.value, "@gmail.com")
      && ParseInt(f.jumlahAnggota.value).Some? && ParseInt(f.jumlahAnggota.value).value >= 1
      && !GroupEmailUsed(db, f.email.value)
    ensures r.reply in {BadRequest(MissingField), BadRequest(NotGmail), BadRequest(TooFewMembers)} ==> r.db == db
    ensures r.reply in {BadRequest(WrongFileCount), BadRequest(EmailExists), ServerError} ==>
      r.db == db.(files := db.files - Paths(files))
    ensures r.reply.Created? ==>
      && r.reply.id !in db.kelompok
      && r.db == db.(kelompok := db.kelompok[r.reply.id := Kelompok(f.email.value, f.namaKetua.value,
           ParseInt(f.jumlahAnggota.value).value, f.instansi.value,
           FindPath(files, "surat_pengantar"), FindPath(files, "surat_balasan"), Unreviewed, None)])
  {
    if !Filled(f, files) then Step(db, BadRequest(MissingField))
    else if |files| != 2 then Step(db.(files := db.files - Paths(files)), BadRequest(WrongFileCount))
    else if !EndsWith(f.email.value, "@gmail.com") then Step(db, BadRequest(NotGmail))
    else
      var n := ParseInt(f.jumlahAnggota.value);
      if n.Some? && n.value < 1 then Step(db, BadRequest(TooFewMembers))
      else if GroupEmailUsed(db, f.email.value) then Step(db.(files := db.files - Paths(files)), BadRequest(EmailExists))
      else if n.None? then Step(db.(files := db.files - Paths(files)), ServerError)
      else
        var id := FreshId(db.kelompok.Keys);
        var k := Kelompok(f.email.value, f.namaKetua.value, n.value, f.instansi.value,
                          FindPath(files, "surat_pengantar"), FindPath(files, "surat_balasan"), Unreviewed, None);
        Step(db.(kelompok := db.kelompok[id := k]), Created(id))
  }

  /** Registration never lets two groups share an e-mail address. */
  lemma RegisterKeepsEmailsUnique(db: Db, f: RegistrationForm, files: seq<Upload>)
    requires UniqueGroupEmails(db)
    ensures UniqueGroupEmails(RegisterKelompok(db, f, files).db)
  {
  }

  /** A wrong file count, a registered address and an unreadable member
      count remove the uploads; every other outcome leaves them on disk. */
  lemma UploadsRemovedExactlyOnLateFailures(db: Db, f: RegistrationForm, files: seq<Upload>)
    requires Paths(files) <= db.files && Paths(files) != {}
    ensures var r := RegisterKelompok(db, f, files);
      r.reply in {BadRequest(WrongFileCount), BadRequest(EmailExists), ServerError} <==>
        (!r.reply.Created? && Paths(files) !! r.db.files)
  {
    var r := RegisterKelompok(db, f, files);
    var p :| p in Paths(files);
    if r.reply in {BadRequest(MissingField), BadRequest(NotGmail), BadRequest(TooFewMembers)} {
      assert p in r.db.files;
    }
  }

  /** A created group appears in the group listing, which then counts one
      more group than before. */
  lemma RegisteredGroupIsListed(db: Db, f: RegistrationForm, files: seq<Upload>)
    ensures var r := RegisterKelompok(db, f, files);
      r.reply.Created? ==>
        RegistrationStatus.GetKelompokList(r.db)
          == RegistrationStatus.GroupList(|db.kelompok| + 1, db.kelompok.Keys + {r.reply.id})
  {
    var r := RegisterKelompok(db, f, files);
    if r.reply.Created? {
      RegistrationStatus.AddedGroupIsListed(db, r.reply.id, r.db.kelompok[r.reply.id]);
    }
  }

  /** A file as the browser sends it: its field, original name, declared
      type and size, and the time at which the upload middleware names it. */
  datatype IncomingFile = IncomingFile(fieldname: string, originalname: string, mimetype: string, size: nat, iso: string)

  /** Where the upload middleware stores a letter: its field's folder joined
      with the name it builds from the body fields parsed so far. */
  function StoredPath(x: IncomingFile, instansi: Option<string>, namaKetua: Option<string>): string {
    SuratUpload.Destination(x.fieldname) + "/" +
      SuratUpload.SuratFileName(x.fieldname, x.iso, instansi, namaKetua, x.originalname)
  }

  /** The upload middleware in front of `registerKelompok` takes the files
      in order. The first one that is not a PDF or is over the size limit
      aborts the request before the handler runs (`None`). Otherwise the
      handler sees every file, in order, under its stored path. */
  function Received(xs: seq<IncomingFile>, instansi: Option<string>, namaKetua: Option<string>): (r: Option<seq<Upload>>)
    ensures r.Some? <==> forall i :: 0 <= i < |xs| ==> SuratUpload.SuratAccepted(xs[i].mimetype, xs[i].size)
    ensures r.Some? ==> |r.value| == |xs|
    ensures r.Some? ==> forall i :: 0 <= i < |xs| ==>
      r.value[i] == Upload(xs[i].fieldname, StoredPath(xs[i], instansi, namaKetua))
    decreases |xs|
  {
    if |xs| == 0 then Some([])
    else if !SuratUpload.SuratAccepted(xs[0].mimetype, xs[0].size) then None
    else
      match Received(xs[1..], instansi, namaKetua)
      case None => None
      case Some(rest) => Some([Upload(xs[0].fieldname, StoredPath(xs[0], instansi, namaKetua))] + rest)
  }

  /** The registration route: the upload middleware, then `registerKelompok`
      with the stored letters on disk. A refused file reaches Express's
      default error handler, which answers 500, and the middleware removes
      what it had stored, so nothing changes. A group is therefore created
      only from exactly two PDF letters of at most 1 048 576 bytes each. */
  ghost function RegisterRoute(db: Db, f: RegistrationForm, xs: seq<IncomingFile>): (r: Step<Reply>)
    ensures Received(xs, f.instansi, f.namaKetua).None? ==> r == Step(db, ServerError)
    ensures Received(xs, f.instansi, f.namaKetua).Some? ==>
      var files := Received(xs, f.instansi, f.namaKetua).value;
      r == RegisterKelompok(db.(files := db.files + Paths(files)), f, files)
    ensures r.reply.Created? ==>
      |xs| == 2 && forall i :: 0 <= i < 2 ==> xs[i].mimetype == "application/pdf" && xs[i].size <= 1048576
  {
    match Received(xs, f.instansi, f.namaKetua)
    case None => Step(db, ServerError)
    case Some(files) => RegisterKelompok(db.(files := db.files + Paths(files)), f, files)
  }
}
