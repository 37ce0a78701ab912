/** The admins' biodata handlers (`managementBiodata.js`): listing every
    participant, a partial update of one participant's biodata with an
    optional replacement of their education history, and clearing both. */
module BiodataManagement {
  import opened Base
  import opened Text
  import opened Store
  import opened RiwayatRows

  /** The biodata fields of a request body, as strings; `None` is a field
      left out (`undefined`). */
  datatype BioForm = BioForm(
    namaPenggilan: Option<string>,
    tempatLahir: Option<string>,
    tanggalLahir: Option<string>,
    anakKe: Option<string>,
    jumlahSaudara: Option<string>,
    ip: Option<string>,
    namaIbu: Option<string>,
    pekerjaanIbu: Option<string>,
    namaAyah: Option<string>,
    pekerjaanAyah: Option<string>,
    agama: Option<string>,
    noHp: Option<string>,
    alamat: Option<string>,
    alamatDomisili: Option<string>,
    alasan: Option<string>,
    keahlian: Option<string>,
    unitKerja: Option<string>,
    jadwalMulai: Option<string>,
    jadwalSelesai: Option<string>)

  const EmptyForm := BioForm(None, None, None, None, None, None, None, None, None, None,
                             None, None, None, None, None, None, None, None, None)

  /** The education history as the handler sees it after `JSON.parse` of a
      string: left out, something falsy, an array of entries, some other
      truthy value, or a string `JSON.parse` rejects. */
  datatype RiwayatInput = NotGiven | Falsy | Entries(entries: seq<HistoryEntry>) | OtherTruthy | Unparsable

  /** The rows the history part would write all belong to existing participants. */
  ghost predicate HistoryOwnersKnown(db: Db, id: Id, input: RiwayatInput) {
    input.Entries? ==> OwnersKnown(db, id, input.entries)
  }

  datatype Reply = BiodataList(ids: set<Id>, total: nat) | Done | BadRequest | ServerError {
    function Code(): nat {
      match this
      case BiodataList(_, _) => 200
      case Done => 200
      case BadRequest => 400
      case ServerError => 500
    }
  }

  /** `getAllBiodata`: every participant, and their number. */
  function GetAllBiodata(db: Db): (r: Reply)
    ensures r.BiodataList? && r.ids == db.peserta.Keys && r.total == |r.ids|
  {
    BiodataList(db.peserta.Keys, |db.peserta|)
  }

  /** A text column: written when the field is sent (even empty), kept when
      it is left out. */
  function GivenOr(given: Option<string>, stored: Option<string>): (r: Option<string>)
    ensures given.None? ==> r == stored
    ensures given.Some? ==> r == given
  {
    if given.Some? then given else stored
  }

  /** The thirteen text columns of a biodata, in the order of the form. */
  function Texts(b: Biodata): (ts: seq<Option<string>>)
    ensures |ts| == 13
  {
    [b.namaPenggilan, b.tempatLahir, b.namaIbu, b.pekerjaanIbu, b.namaAyah, b.pekerjaanAyah, b.agama,
     b.noHp, b.alamat, b.alamatDomisili, b.alasan, b.keahlian, b.unitKerja]
  }

  /** The same thirteen fields of a form. */
  function FormTexts(f: BioForm): (ts: seq<Option<string>>)
    ensures |ts| == 13
  {
    [f.namaPenggilan, f.tempatLahir, f.namaIbu, f.pekerjaanIbu, f.namaAyah, f.pekerjaanAyah, f.agama,
     f.noHp, f.alamat, f.alamatDomisili, f.alasan, f.keahlian, f.unitKerja]
  }

  /** Each text column as the form gives it, or else as stored. */
  function Merge(given: seq<Option<string>>, stored: seq<Option<string>>): (r: seq<Option<string>>)
    requires |given| == |stored|
    ensures |r| == |stored|
    ensures forall i :: 0 <= i < |r| ==> r[i] == GivenOr(given[i], stored[i])
  {
    seq(|stored|, i requires 0 <= i < |stored| => GivenOr(given[i], stored[i]))
  }

  /** `b` with its thirteen text columns replaced by `ts`; the dates, the
      numbers, the GPA and the photo stay. */
  function WithTexts(b: Biodata, ts: seq<Option<string>>): (r: Biodata)
    requires |ts| == 13
    ensures Texts(r) == ts
    ensures r.tanggalLahir == b.tanggalLahir && r.anakKe == b.anakKe && r.jumlahSaudara == b.jumlahSaudara
    ensures r.ip == b.ip && r.jadwalMulai == b.jadwalMulai && r.jadwalSelesai == b.jadwalSelesai && r.foto == b.foto
  {
    b.(namaPenggilan := ts[0], tempatLahir := ts[1], namaIbu := ts[2], pekerjaanIbu := ts[3], namaAyah := ts[4],
       pekerjaanAyah := ts[5], agama := ts[6], noHp := ts[7], alamat := ts[8], alamatDomisili := ts[9],
       alasan := ts[10], keahlian := ts[11], unitKerja := ts[12])
  }

  /** A date column: a truthy field must read as a date (`None` when it does
      not, which the database refuses); a falsy one keeps the stored date. */
  function DateOrKeep(given: Option<string>, stored: Option<int>, dateOf: string -> Option<int>): (r: Option<Option<int>>)
    ensures !Present(given) ==> r == Some(stored)
    ensures Present(given) ==> r == (if dateOf(given.value).Some? then Some(dateOf(given.value)) else None)
  {
    if !Present(given) then Some(stored)
    else match dateOf(given.value)
      case None => None
      case Some(d) => Some(Some(d))
  }

  /** A whole-number column: a truthy field goes through `parseInt`, and a
      `NaN` is refused by the database; a falsy one keeps the stored
      number. */
  function IntOrKeep(given: Option<string>, stored: Option<int>): (r: Option<Option<int>>)
    ensures !Present(given) ==> r == Some(stored)
    ensures Present(given) ==> (r.Some? <==> ParseInt(given.value).Some?)
    ensures Present(given) && r.Some? ==> r.value == ParseInt(given.value)
  {
    if !Present(given) then Some(stored)
    else match ParseInt(given.value)
      case None => None
      case Some(n) => Some(Some(n))
  }

  /** The typed columns after the admin's update (dates, numbers, GPA and
      photo), the text columns untouched; `None` when a truthy date or
      number field cannot be stored. */
  function Typed(b: Biodata, f: BioForm, file: Option<string>, dateOf: string -> Option<int>): (r: Option<Biodata>)
    ensures r.None? <==>
      || DateOrKeep(f.tanggalLahir, b.tanggalLahir, dateOf).None?
      || IntOrKeep(f.anakKe, b.anakKe).None?
      || IntOrKeep(f.jumlahSaudara, b.jumlahSaudara).None?
      || DateOrKeep(f.jadwalMulai, b.jadwalMulai, dateOf).None?
      || DateOrKeep(f.jadwalSelesai, b.jadwalSelesai, dateOf).None?
    ensures r.Some? ==> (
      && r.value.tanggalLahir == DateOrKeep(f.tanggalLahir, b.tanggalLahir, dateOf).value
      && r.value.anakKe == IntOrKeep(f.anakKe, b.anakKe).value
      && r.value.jumlahSaudara == IntOrKeep(f.jumlahSaudara, b.jumlahSaudara).value
      && r.value.jadwalMulai == DateOrKeep(f.jadwalMulai, b.jadwalMulai, dateOf).value
      && r.value.jadwalSelesai == DateOrKeep(f.jadwalSelesai, b.jadwalSelesai, dateOf).value
      && r.value.ip == (if Present(f.ip) then Some(ParseFloatOf(f.ip.value)) else b.ip)
      && r.value.foto == (if file.Some? then file else b.foto)
      && Texts(r.value) == Texts(b))
  {
    var tl := DateOrKeep(f.tanggalLahir, b.tanggalLahir, dateOf);
    var ak := IntOrKeep(f.anakKe, b.anakKe);
    var js := IntOrKeep(f.jumlahSaudara, b.jumlahSaudara);
    var jm := DateOrKeep(f.jadwalMulai, b.jadwalMulai, dateOf);
    var jse := DateOrKeep(f.jadwalSelesai, b.jadwalSelesai, dateOf);
    if tl.None? || ak.None? || js.None? || jm.None? || jse.None? then None
    else
      Some(b.(tanggalLahir := tl.value, anakKe := ak.value, jumlahSaudara := js.value,
              ip := if Present(f.ip) then Some(ParseFloatOf(f.ip.value)) else b.ip,
              jadwalMulai := jm.value, jadwalSelesai := jse.value, foto := if file.Some? then file else b.foto))
  }

  /** The biodata after the admin's update, or `None` when a truthy date or
      number field cannot be stored. A date or number field is written when
      given and kept when left out; so are the GPA and the photo; each text
      column is the form's text when given, else the stored one. */
  function Updated(b: Biodata, f: BioForm, file: Option<string>, dateOf: string -> Option<int>): (r: Option<Biodata>)
    ensures r.None? <==>
      || DateOrKeep(f.tanggalLahir, b.tanggalLahir, dateOf).None?
      || IntOrKeep(f.anakKe, b.anakKe).None?
      || IntOrKeep(f.jumlahSaudara, b.jumlahSaudara).None?
      || DateOrKeep(f.jadwalMulai, b.jadwalMulai, dateOf).None?
      || DateOrKeep(f.jadwalSelesai, b.jadwalSelesai, dateOf).None?
    ensures r.Some? ==> (
      && r.value.tanggalLahir == DateOrKeep(f.tanggalLahir, b.tanggalLahir, dateOf).value
      && r.value.anakKe == IntOrKeep(f.anakKe, b.anakKe).value
      && r.value.jumlahSaudara == IntOrKeep(f.jumlahSaudara, b.jumlahSaudara).value
      && r.value.jadwalMulai == DateOrKeep(f.jadwalMulai, b.jadwalMulai, dateOf).value
      && r.value.jadwalSelesai == DateOrKeep(f.jadwalSelesai, b.jadwalSelesai, dateOf).value
      && (!Present(f.ip) ==> r.value.ip == b.ip)
      && (Present(f.ip) ==> r.value.ip == Some(ParseFloatOf(f.ip.value)))
      && (file.None? ==> r.value.foto == b.foto)
      && (file.Some? ==> r.value.foto == file)
      && forall i :: 0 <= i < |Texts(b)| ==> Texts(r.value)[i] == GivenOr(FormTexts(f)[i], Texts(b)[i]))
  {
    match Typed(b, f, file, dateOf)
    case None => None
    case Some(t) => Some(WithTexts(t, Merge(FormTexts(f), Texts(b))))
  }

  /** The education history after the admin's update: a truthy value clears
      the participant's rows and an array then writes its entries; a value
      left out or falsy leaves the rows alone. */
  function NewRiwayat(rs: seq<Riwayat>, id: Id, input: RiwayatInput): seq<Riwayat>
    requires !input.Unparsable?
  {
    match input
    case NotGiven => rs
    case Falsy => rs
    case OtherTruthy => Without(rs, id)
    case Entries(es) => Without(rs, id) + RowsFor(id, es)
  }

  /** `addBiodata` (admin): one transaction updating the participant and,
      when asked, their education history. An unreadable history, an
      unknown participant, a value the database refuses or a history row
      whose participant does not exist is 500 and nothing is written. Otherwise the participant's biodata is updated as
      `Updated` says and nothing else of them changes (name, e-mail,
      number, certificate and status stay). */
  ghost function AddBiodata(db: Db, pesertaId: Id, f: BioForm, file: Option<string>, input: RiwayatInput,
                            dateOf: string -> Option<int>): (r: Step<Reply>)
    ensures r.reply == ServerError <==>
      || input.Unparsable? || pesertaId !in db.peserta || Updated(db.peserta[pesertaId].bio, f, file, dateOf).None?
      || !HistoryOwnersKnown(db, pesertaId, input)
    ensures r.reply != ServerError ==> r.reply == Done
    ensures r.reply == ServerError ==> r.db == db
    ensures r.reply == Done ==> (
      && var p := db.peserta[pesertaId];
      && r.db.peserta == db.peserta[pesertaId := p.(bio := Updated(p.bio, f, file, dateOf).value)]
      && r.db.riwayat == NewRiwayat(db.riwayat, pesertaId, input)
      && r.db == db.(peserta := r.db.peserta, riwayat := r.db.riwayat))
  {
    if input.Unparsable? || pesertaId !in db.peserta then Step(db, ServerError)
    else
      var p := db.peserta[pesertaId];
      match Updated(p.bio, f, file, dateOf)
      case None => Step(db, ServerError)
      case Some(b) =>
        if !HistoryOwnersKnown(db, pesertaId, input) then Step(db, ServerError)
        else Step(db.(peserta := db.peserta[pesertaId := p.(bio := b)], riwayat := NewRiwayat(db.riwayat, pesertaId, input)), Done)
  }

  /** The history part of an update. A value left out or falsy keeps every
      row. Any other truthy value clears the participant's rows, and an
      array then writes its entries: each participant other than the one
      updated keeps their rows and gains those entries that name them, so
      one whom no entry names is untouched. When no entry names somebody
      else, the participant's rows are exactly the array's entries. */
  lemma RiwayatReplacement(db: Db, pesertaId: Id, input: RiwayatInput, j: Id)
    requires !input.Unparsable?
    ensures var after := NewRiwayat(db.riwayat, pesertaId, input);
      && (input in {NotGiven, Falsy} ==> after == db.riwayat)
      && (input.OtherTruthy? ==> Of(after, j) == if j == pesertaId then [] else Of(db.riwayat, j))
      && (input.Entries? ==>
            Of(after, j) == (if j == pesertaId then [] else Of(db.riwayat, j)) + Of(RowsFor(pesertaId, input.entries), j))
      && (input.Entries? && j != pesertaId && !Names(input.entries, j) ==> Of(after, j) == Of(db.riwayat, j))
      && (input.Entries? && NamesNoOther(pesertaId, input.entries) ==>
            Of(after, pesertaId) == OwnRowsFor(pesertaId, input.entries))
  {
    match input
    case NotGiven =>
    case Falsy =>
    case OtherTruthy => OfWithout(db.riwayat, pesertaId, j);
    case Entries(es) =>
      ReplaceAsWritten(db.riwayat, pesertaId, es, j);
      if j != pesertaId && !Names(es, j) {
        OfRowsForUnnamed(pesertaId, es, j);
      }
      if NamesNoOther(pesertaId, es) {
        AsWrittenIsOwnIff(pesertaId, es);
        Replace(db.riwayat, pesertaId, es, pesertaId);
      }
  }

  /** Sending nothing changes nothing. */
  lemma EmptyUpdateKeepsAll(db: Db, pesertaId: Id, dateOf: string -> Option<int>)
    requires pesertaId in db.peserta
    ensures AddBiodata(db, pesertaId, EmptyForm, None, NotGiven, dateOf) == Step(db, Done)
  {
    var p := db.peserta[pesertaId];
    assert Updated(p.bio, EmptyForm, None, dateOf) == Some(p.bio);
    assert db.peserta[pesertaId := p.(bio := p.bio)] == db.peserta;
  }

  /** `deleteBiodata` (admin): one transaction clearing the participant's
      history rows and setting every biodata column to null. An unknown
      participant is 500 with nothing written. Name, e-mail, number,
      certificate, statuses and everyone else's rows stay. */
  function DeleteBiodata(db: Db, pesertaId: Id): (r: Step<Reply>)
    ensures r.reply == ServerError <==> pesertaId !in db.peserta
    ensures r.reply == ServerError ==> r.db == db
    ensures r.reply != ServerError ==> (
      && r.reply == Done
      && r.db.peserta.Keys == db.peserta.Keys
      && r.db.peserta[pesertaId].bio == NoBiodata
      && var p := db.peserta[pesertaId]; var q := r.db.peserta[pesertaId];
      && q.nama == p.nama && q.email == p.email && q.nomorPeserta == p.nomorPeserta
      && q.sertifikat == p.sertifikat && q.statusSertifikat == p.statusSertifikat
      && q.statusPeserta == p.statusPeserta && q == p.(bio := NoBiodata)
      && (forall id :: id in db.peserta && id != pesertaId ==> r.db.peserta[id] == db.peserta[id])
      && Of(r.db.riwayat, pesertaId) == []
      && (forall j :: j != pesertaId ==> Of(r.db.riwayat, j) == Of(db.riwayat, j))
      && r.db == db.(peserta := r.db.peserta, riwayat := r.db.riwayat))
  {
    if pesertaId !in db.peserta then Step(db, ServerError)
    else
      forall j ensures Of(Without(db.riwayat, pesertaId), j) == if j == pesertaId then [] else Of(db.riwayat, j) {
        OfWithout(db.riwayat, pesertaId, j);
      }
      var p := db.peserta[pesertaId];
      Step(db.(peserta := db.peserta[pesertaId := p.(bio := NoBiodata)], riwayat := Without(db.riwayat, pesertaId)), Done)
  }

  /** Updating or clearing a participant's biodata never changes who is
      listed, nor how many. */
  lemma ListingUnchangedByBiodata(db: Db, pesertaId: Id, f: BioForm, file: Option<string>, input: RiwayatInput,
                                  dateOf: string -> Option<int>)
    ensures GetAllBiodata(AddBiodata(db, pesertaId, f, file, input, dateOf).db) == GetAllBiodata(db)
    ensures GetAllBiodata(DeleteBiodata(db, pesertaId).db) == GetAllBiodata(db)
  {
    var a := AddBiodata(db, pesertaId, f, file, input, dateOf);
    if a.reply == Done {
      assert a.db.peserta.Keys == db.peserta.Keys;
    }
  }

  /** Clearing twice is clearing once. */
  lemma DeleteIsIdempotent(db: Db, pesertaId: Id)
    ensures var once := DeleteBiodata(db, pesertaId);
      DeleteBiodata(once.db, pesertaId) == once
  {
    var once := DeleteBiodata(db, pesertaId);
    if pesertaId in db.peserta {
      WithoutTwice(db.riwayat, pesertaId);
    }
  }
}
