/** The participant's own biodata handlers (`biodataPeserta.controller.js`):
    the same form as the admins' update but written as a whole, and clearing
    it. Both act on the caller's record only. */
module BiodataSelf {
  import opened Base
  import opened Text
  import opened Store
  import opened RiwayatRows
  import BM = BiodataManagement

  /** A date column written as `new Date(field)`: a field left out or
      unreadable gives an Invalid Date, which the database refuses. */
  function DateOf(given: Option<string>, dateOf: string -> Option<int>): (r: Option<int>)
    ensures given.None? ==> r.None?
    ensures given.Some? ==> r == dateOf(given.value)
  {
    if given.None? then None else dateOf(given.value)
  }

  /** A whole-number column: a falsy field is stored as null, a truthy one
      goes through `parseInt` (`None` when the result is `NaN`). */
  function IntOrNull(given: Option<string>): (r: Option<Option<int>>)
    ensures !Present(given) ==> r == Some(None)
    ensures Present(given) ==> (r.Some? <==> ParseInt(given.value).Some?)
    ensures Present(given) && r.Some? ==> r.value == ParseInt(given.value)
  {
    if !Present(given) then Some(None)
    else match ParseInt(given.value)
      case None => None
      case Some(n) => Some(Some(n))
  }

  /** The biodata after the participant's update, or `None` when one of the
      three dates is missing or unreadable, or a truthy number field reads
      as `NaN`. The dates and numbers are those given, numbers and the GPA
      left out become null, the photo is kept unless a file came with the
      form, and each text column is the form's text when given, else the
      stored one. */
  function Updated(b: Biodata, f: BM.BioForm, file: Option<string>, dateOf: string -> Option<int>): (r: Option<Biodata>)
    ensures r.None? <==>
      || DateOf(f.tanggalLahir, dateOf).None? || DateOf(f.jadwalMulai, dateOf).None? || DateOf(f.jadwalSelesai, dateOf).None?
      || IntOrNull(f.anakKe).None? || IntOrNull(f.jumlahSaudara).None?
    ensures r.Some? ==> (
      && r.value.tanggalLahir == dateOf(f.tanggalLahir.value)
      && r.value.jadwalMulai == dateOf(f.jadwalMulai.value)
      && r.value.jadwalSelesai == dateOf(f.jadwalSelesai.value)
      && r.value.anakKe == IntOrNull(f.anakKe).value
      && r.value.jumlahSaudara == IntOrNull(f.jumlahSaudara).value
      && (!Present(f.ip) ==> r.value.ip == None)
      && (Present(f.ip) ==> r.value.ip == Some(ParseFloatOf(f.ip.value)))
      && (file.None? ==> r.value.foto == b.foto)
      && (file.Some? ==> r.value.foto == file)
      && forall i :: 0 <= i < |BM.Texts(b)| ==> BM.Texts(r.value)[i] == BM.GivenOr(BM.FormTexts(f)[i], BM.Texts(b)[i]))
  {
    var tl := DateOf(f.tanggalLahir, dateOf);
    var jm := DateOf(f.jadwalMulai, dateOf);
    var jse := DateOf(f.jadwalSelesai, dateOf);
    var ak := IntOrNull(f.anakKe);
    var js := IntOrNull(f.jumlahSaudara);
    if tl.None? || jm.None? || jse.None? || ak.None? || js.None? then None
    else
      var typed := b.(tanggalLahir := tl, anakKe := ak.value, jumlahSaudara := js.value,
                      ip := if Present(f.ip) then Some(ParseFloatOf(f.ip.value)) else None,
                      jadwalMulai := jm, jadwalSelesai := jse, foto := if file.Some? then file else b.foto);
      assert BM.Texts(typed) == BM.Texts(b);
      Some(BM.WithTexts(typed, BM.Merge(BM.FormTexts(f), BM.Texts(b))))
  }

  /** The history after the participant's update: the caller's rows are
      always cleared, and an array brings its entries back. */
  function NewRiwayat(rs: seq<Riwayat>, id: Id, input: BM.RiwayatInput): seq<Riwayat>
  {
    if input.Entries? then Without(rs, id) + RowsFor(id, input.entries) else Without(rs, id)
  }

  /** `addBiodata` (participant): no caller id is 400; an unreadable
      history, a caller with no participant record or a value the database
      refuses is 500; in all three nothing is written. Otherwise, in one
      transaction, the caller's biodata is updated and their history
      replaced; no other record changes. */
  ghost function AddBiodata(db: Db, userId: Option<Id>, f: BM.BioForm, file: Option<string>, input: BM.RiwayatInput,
                            dateOf: string -> Option<int>): (r: Step<BM.Reply>)
    ensures r.reply == BM.BadRequest <==> !Present(userId)
    ensures r.reply == BM.ServerError <==>
      Present(userId) && (input.Unparsable? || userId.value !in db.peserta
                          || Updated(db.peserta[userId.value].bio, f, file, dateOf).None?
                          || !BM.HistoryOwnersKnown(db, userId.value, input))
    ensures r.reply in {BM.BadRequest, BM.ServerError} ==> r.db == db
    ensures r.reply !in {BM.BadRequest, BM.ServerError} ==> (
      && r.reply == BM.Done
      && var id := userId.value; var p := db.peserta[id];
      && r.db.peserta == db.peserta[id := p.(bio := Updated(p.bio, f, file, dateOf).value)]
      && r.db.riwayat == NewRiwayat(db.riwayat, id, input)
      && r.db == db.(peserta := r.db.peserta, riwayat := r.db.riwayat))
  {
    if !Present(userId) then Step(db, BM.BadRequest)
    else if input.Unparsable? || userId.value !in db.peserta then Step(db, BM.ServerError)
    else
      var id := userId.value;
      var p := db.peserta[id];
      match Updated(p.bio, f, file, dateOf)
      case None => Step(db, BM.ServerError)
      case Some(b) =>
        if !BM.HistoryOwnersKnown(db, id, input) then Step(db, BM.ServerError)
        else Step(db.(peserta := db.peserta[id := p.(bio := b)], riwayat := NewRiwayat(db.riwayat, id, input)), BM.Done)
  }

  /** Whatever the form, a participant's update leaves every other
      participant's record alone. Another participant's history keeps its
      rows and gains exactly the written rows that land on them, which are
      those of entries naming them; one whom no entry names is untouched. */
  lemma OnlyOwnRecord(db: Db, userId: Option<Id>, f: BM.BioForm, file: Option<string>, input: BM.RiwayatInput,
                      dateOf: string -> Option<int>, other: Id)
    requires !(Present(userId) && other == userId.value)
    ensures var r := AddBiodata(db, userId, f, file, input, dateOf);
      && r.db.peserta.Keys == db.peserta.Keys
      && (other in db.peserta ==> r.db.peserta[other] == db.peserta[other])
      && Of(r.db.riwayat, other) == Of(db.riwayat, other) +
           (if r.reply == BM.Done && input.Entries? then Of(RowsFor(userId.value, input.entries), other) else [])
      && (!(input.Entries? && Names(input.entries, other)) ==> Of(r.db.riwayat, other) == Of(db.riwayat, other))
  {
    var r := AddBiodata(db, userId, f, file, input, dateOf);
    if r.reply == BM.Done {
      OthersHistory(db.riwayat, userId.value, input, other);
    }
  }

  /** Another participant's rows after the caller's history is rewritten:
      theirs, then the written rows that land on them. */
  lemma OthersHistory(rs: seq<Riwayat>, id: Id, input: BM.RiwayatInput, other: Id)
    requires other != id
    ensures Of(NewRiwayat(rs, id, input), other) ==
      Of(rs, other) + (if input.Entries? then Of(RowsFor(id, input.entries), other) else [])
    ensures !(input.Entries? && Names(input.entries, other)) ==> Of(NewRiwayat(rs, id, input), other) == Of(rs, other)
  {
    if input.Entries? {
      ReplaceAsWritten(rs, id, input.entries, other);
      if !Names(input.entries, other) {
        OfRowsForUnnamed(id, input.entries, other);
      }
    } else {
      OfWithout(rs, id, other);
    }
  }

  /** The caller's history after a successful update: the rows of an array
      that land on the caller (none for an empty one), and nothing at all
      for any other value, unlike the admins' update which keeps it for a
      value left out or falsy. When no entry names somebody else, those are
      exactly the array's entries. */
  lemma HistoryAlwaysCleared(db: Db, id: Id, f: BM.BioForm, file: Option<string>, input: BM.RiwayatInput,
                             dateOf: string -> Option<int>)
    requires id != "" && AddBiodata(db, Some(id), f, file, input, dateOf).reply == BM.Done
    ensures var after := AddBiodata(db, Some(id), f, file, input, dateOf).db.riwayat;
      && Of(after, id) == (if input.Entries? then Of(RowsFor(id, input.entries), id) else [])
      && (input.Entries? && NamesNoOther(id, input.entries) ==> Of(after, id) == OwnRowsFor(id, input.entries))
  {
    if input.Entries? {
      ReplaceAsWritten(db.riwayat, id, input.entries, id);
      if NamesNoOther(id, input.entries) {
        AsWrittenIsOwnIff(id, input.entries);
        Replace(db.riwayat, id, input.entries, id);
      }
    } else {
      OfWithout(db.riwayat, id, id);
    }
  }

  /** Where the admins' update keeps a stored number or GPA for a field left
      out, the participant's own update writes null. */
  lemma AbsentNumbersNulled(b: Biodata, f: BM.BioForm, file: Option<string>, dateOf: string -> Option<int>)
    requires !Present(f.anakKe) && !Present(f.jumlahSaudara) && !Present(f.ip)
    requires Updated(b, f, file, dateOf).Some? && BM.Updated(b, f, file, dateOf).Some?
    ensures var mine := Updated(b, f, file, dateOf).value; var admin := BM.Updated(b, f, file, dateOf).value;
      && mine.anakKe == None && mine.jumlahSaudara == None && mine.ip == None
      && admin.anakKe == b.anakKe && admin.jumlahSaudara == b.jumlahSaudara && admin.ip == b.ip
  {
  }

  /** `deleteBiodata` (participant): no caller id is 400 with nothing
      written; otherwise it is the admins' clearing applied to the caller. */
  function DeleteBiodata(db: Db, userId: Option<Id>): (r: Step<BM.Reply>)
    ensures r.reply == BM.BadRequest <==> !Present(userId)
    ensures r.reply == BM.BadRequest ==> r.db == db
    ensures r.reply == BM.ServerError <==> Present(userId) && userId.value !in db.peserta
    ensures r.reply == BM.ServerError ==> r.db == db
    ensures r.reply == BM.Done ==> (
      && var id := userId.value;
      && id in db.peserta && r.db.peserta.Keys == db.peserta.Keys
      && r.db.peserta[id].bio == NoBiodata
      && r.db.peserta[id] == db.peserta[id].(bio := NoBiodata)
      && Of(r.db.riwayat, id) == []
      && (forall j :: j != id ==> Of(r.db.riwayat, j) == Of(db.riwayat, j)))
  {
    if !Present(userId) then Step(db, BM.BadRequest) else BM.DeleteBiodata(db, userId.value)
  }
}
