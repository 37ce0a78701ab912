/** The database the handlers read and write, as one immutable value: a map
    from id to record per table, the staff notifications, and the set of
    paths present on disk. Ids are the table's generated keys. */
module Store {
  import opened Base
  import opened Text
  import opened Tally

  type Id = string

  /** A bcrypt digest. The salt makes the real value unpredictable, so it is
      kept symbolic: the only thing the handlers do with it is compare a
      candidate password, which succeeds exactly for the hashed one. */
  datatype PasswordHash = BcryptOf(plain: string)

  predicate PasswordMatches(candidate: string, h: PasswordHash) {
    h == BcryptOf(candidate)
  }

  /** A staff account. `role` is 'Admin' or 'Pegawai'. */
  datatype Pegawai = Pegawai(
    email: string,
    password: PasswordHash,
    nama: string,
    nip: string,
    jabatan: string,
    role: string,
    createdAt: int)

  /** The review status of a registered group; `Unreviewed` stands for the
      column's default, which no handler here writes. */
  datatype GroupStatus = Unreviewed | Diterima | Ditolak

  datatype Kelompok = Kelompok(
    email: string,
    namaKetua: string,
    jumlahAnggota: int,
    instansi: string,
    suratPengantar: Option<string>,
    suratBalasan: Option<string>,
    status: GroupStatus,
    nomorKelompok: Option<string>)

  /** `parseFloat(text)`, kept symbolic. */
  datatype Float = ParseFloatOf(text: string)

  /** The participant's self-described data: every column that the biodata
      forms write and that deleting the biodata sets back to null. Dates are
      timestamps in milliseconds. */
  datatype Biodata = Biodata(
    namaPenggilan: Option<string>,
    tempatLahir: Option<string>,
    tanggalLahir: Option<int>,
    anakKe: Option<int>,
    jumlahSaudara: Option<int>,
    ip: Option<Float>,
    namaIbu: Option<string>,
    pekerjaanIbu: Option<string>,
    namaAyah: Option<string>,
    pekerjaanAyah: Option<string>,
    agama: Option<string>,
    noHp: Option<string>,
    alamat: Option<string>,
    alamatDomisili: Option<string>,
    alasan: Option<string>,
    keahlian: Option<string>,
    unitKerja: Option<string>,
    jadwalMulai: Option<int>,
    jadwalSelesai: Option<int>,
    foto: Option<string>)

  /** The biodata after it has been deleted: every column null. */
  const NoBiodata := Biodata(None, None, None, None, None, None, None, None, None, None,
                             None, None, None, None, None, None, None, None, None, None)

  datatype StatusPeserta = Aktif | Nonaktif

  /** A participant account. `role` is the role carried in its tokens ('User'). */
  datatype Peserta = Peserta(
    nama: string,
    email: string,
    password: PasswordHash,
    role: string,
    kelompok: Option<Id>,
    bio: Biodata,
    nomorPeserta: Option<string>,
    sertifikat: Option<string>,
    statusSertifikat: Option<string>,
    statusPeserta: StatusPeserta,
    createdAt: int)

  /** A task given by a staff member to a participant. `status` is any
      text: creation writes 'Pending', a hand-in 'Selesai' or 'Terlambat',
      and an edit whatever non-empty status it is given. */
  datatype Tugas = Tugas(
    idPeserta: Id,
    idPegawai: Id,
    deskripsi: string,
    deadline: int,
    status: string,
    catatan: Option<string>)

  datatype Logbook = Logbook(idPeserta: Id, tanggal: int, kegiatan: string)

  /** One education-history row; its columns are copied from the request. */
  datatype Riwayat = Riwayat(idPeserta: Id, entry: string)

  /** One element of a request's `riwayat_pendidikan` array: the
      `id_peserta` it carries itself, if any, and its other columns, which
      the model keeps opaque. */
  datatype HistoryEntry = HistoryEntry(idPeserta: Option<Id>, columns: string)

  datatype TemplateStatus = TidakDigunakan | SedangDigunakan

  datatype Template = Template(nama: Option<string>, filePath: string, status: TemplateStatus, createdAt: int)

  /** A notification row; `read` is its `status` column. */
  datatype Notif = Notif(recipient: Id, tipe: string, read: bool)

  /** The claims of a verified token, as `req.user` carries them. */
  datatype User = User(id: Id, email: string, nama: string, role: string)

  datatype Db = Db(
    pegawai: map<Id, Pegawai>,
    kelompok: map<Id, Kelompok>,
    peserta: map<Id, Peserta>,
    tugas: map<Id, Tugas>,
    logbook: map<Id, Logbook>,
    riwayat: seq<Riwayat>,
    templates: map<Id, Template>,
    staffNotifs: multiset<Notif>,
    pesertaNotifs: map<Id, Notif>,
    files: set<string>)

  /** What a handler leaves behind: the database after it, and its reply. */
  datatype Step<R> = Step(db: Db, reply: R)

  // ---------------------------------------------------------------------------
  // Generated ids.

  ghost function MaxLength(ids: set<Id>): (n: nat)
    ensures forall id :: id in ids ==> |id| <= n
    decreases ids
  {
    if ids == {} then 0
    else
      var x :| x in ids;
      var m := MaxLength(ids - {x});
      if |x| > m then |x| else m
  }

  /** An id the table does not use yet, standing for the generated key. */
  ghost function FreshId(used: set<Id>): (id: Id)
    ensures id !in used
  {
    Repeat('n', MaxLength(used) + 1)
  }

  // ---------------------------------------------------------------------------
  // Staff with role 'Admin' and the notification fan-out to them.

  ghost function Admins(db: Db): set<Id> {
    set id | id in db.pegawai && db.pegawai[id].role == "Admin"
  }

  /** One unread notification of kind `tipe` for each staff id in `to`. */
  ghost function FanOut(staff: set<Id>, tipe: string): (m: multiset<Notif>)
    ensures |m| == |staff|
    ensures forall n :: n in m ==> n.recipient in staff && n.tipe == tipe && !n.read
    ensures forall a :: a in staff ==> m[Notif(a, tipe, false)] == 1
  {
    if staff == {} then multiset{}
    else
      var a :| a in staff;
      FanOut(staff - {a}, tipe) + multiset{Notif(a, tipe, false)}
  }

  // ---------------------------------------------------------------------------
  // Ordered listings.

  /** Sorted by `key`, largest first (`orderBy: { field: 'desc' }`). */
  ghost predicate SortedDesc<T>(ids: seq<Id>, m: map<Id, T>, key: T -> int) {
    && (forall i :: 0 <= i < |ids| ==> ids[i] in m)
    && (forall i, j :: 0 <= i < j < |ids| ==> key(m[ids[i]]) >= key(m[ids[j]]))
  }

  ghost predicate Distinct(ids: seq<Id>) {
    forall i, j :: 0 <= i < j < |ids| ==> ids[i] != ids[j]
  }

  /** Adding a row under a new key adds exactly that key, and one row. */
  lemma AddRow<T>(m: map<Id, T>, k: Id, v: T)
    requires k !in m
    ensures m[k := v].Keys == m.Keys + {k}
    ensures |m[k := v]| == |m| + 1
  {
    assert m[k := v].Keys == m.Keys + {k};
  }

  /** Removing a row just added under a new key restores the table. */
  lemma RemoveAdded<T>(m: map<Id, T>, k: Id, v: T)
    requires k !in m
    ensures m[k := v] - {k} == m
  {
    assert (m[k := v] - {k}).Keys == m.Keys;
  }

  /** A repetition-free listing of a set is as long as the set is large. */
  lemma {:induction false} DistinctLength(ids: seq<Id>, s: set<Id>)
    requires Distinct(ids)
    requires forall x :: x in ids <==> x in s
    ensures |ids| == |s|
    decreases |ids|
  {
    if |ids| == 0 {
      assert s == {};
    } else {
      var h := ids[0];
      assert ids == [h] + ids[1..];
      assert h !in ids[1..];
      DistinctLength(ids[1..], s - {h});
    }
  }

  function InsertDesc<T>(ids: seq<Id>, x: Id, m: map<Id, T>, key: T -> int): (r: seq<Id>)
    requires x in m && SortedDesc(ids, m, key)
    requires x !in ids && Distinct(ids)
    ensures SortedDesc(r, m, key) && Distinct(r)
    ensures forall y :: y in r <==> y == x || y in ids
    decreases |ids|
  {
    if |ids| == 0 || key(m[x]) >= key(m[ids[0]]) then [x] + ids
    else
      var h := ids[0];
      assert ids == [h] + ids[1..];
      var rest := InsertDesc(ids[1..], x, m, key);
      assert forall y :: y in rest ==> key(m[y]) <= key(m[h]) && y != h;
      var r := [h] + rest;
      assert forall i :: 0 < i < |r| ==> r[i] == rest[i - 1];
      r
  }

  /** The rows `sel` of table `m`, each once, largest `key` first. */
  method ListDesc<T>(m: map<Id, T>, sel: set<Id>, key: T -> int) returns (ids: seq<Id>)
    requires sel <= m.Keys
    ensures SortedDesc(ids, m, key)
    ensures Distinct(ids)
    ensures forall id :: id in ids <==> id in sel
    ensures |ids| == |sel|
  {
    ids := [];
    var todo := sel;
    while todo != {}
      invariant todo <= sel
      invariant SortedDesc(ids, m, key) && Distinct(ids)
      invariant forall id :: id in ids <==> id in sel - todo
      decreases todo
    {
      var x :| x in todo;
      ids := InsertDesc(ids, x, m, key);
      todo := todo - {x};
    }
    DistinctLength(ids, sel);
  }

  /** The records a listing of ids shows, in listing order. */
  function Rows<T>(ids: seq<Id>, m: map<Id, T>): (rows: seq<T>)
    requires forall i :: 0 <= i < |ids| ==> ids[i] in m
    ensures |rows| == |ids| && forall i :: 0 <= i < |ids| ==> rows[i] == m[ids[i]]
  {
    seq(|ids|, i requires 0 <= i < |ids| => m[ids[i]])
  }

  /** The members of `s` whose record satisfies `p`. */
  ghost function Matching<T>(s: set<Id>, m: map<Id, T>, p: T -> bool): (r: set<Id>)
    requires s <= m.Keys
    ensures forall id :: id in r <==> id in s && p(m[id])
  {
    set id | id in s && p(m[id])
  }

  /** Dropping the last entry of a repetition-free listing of `s` lists `s`
      without that entry. */
  lemma ListingWithoutLast(ids: seq<Id>, s: set<Id>)
    requires Distinct(ids) && |ids| > 0
    requires forall x :: x in ids <==> x in s
    ensures var n := |ids| - 1;
      && Distinct(ids[..n])
      && ids[n] in s && ids[n] !in ids[..n]
      && forall y :: y in ids[..n] <==> y in s - {ids[n]}
  {
    var n := |ids| - 1;
    var init := ids[..n];
    var x := ids[n];
    assert x !in init;
    forall y ensures y in init <==> y in s - {x} {
      if y in init { var k :| 0 <= k < n && init[k] == y; assert ids[k] == y; }
      if y in s - {x} { var k :| 0 <= k < |ids| && ids[k] == y; assert k != n; assert init[k] == y; }
    }
  }

  /** Counting the rows of a repetition-free listing of `s` that satisfy
      `p` counts the members of `s` whose record satisfies `p`. */
  lemma {:induction false} CountRows<T>(ids: seq<Id>, m: map<Id, T>, s: set<Id>, p: T -> bool)
    requires Distinct(ids) && s <= m.Keys
    requires forall x :: x in ids <==> x in s
    ensures CountIf(Rows(ids, m), p) == |Matching(s, m, p)|
    decreases |ids|
  {
    if |ids| == 0 {
      assert s == {};
      assert Matching(s, m, p) == {};
    } else {
      var n := |ids| - 1;
      var init := ids[..n];
      var x := ids[n];
      var s' := s - {x};
      ListingWithoutLast(ids, s);
      CountRows(init, m, s', p);
      RowsPrefix(ids, m);
      MatchingWithout(s, m, p, x);
    }
  }

  /** The rows of a listing without its last entry are its rows without
      the last one. */
  lemma RowsPrefix<T>(ids: seq<Id>, m: map<Id, T>)
    requires |ids| > 0 && forall i :: 0 <= i < |ids| ==> ids[i] in m
    ensures var n := |ids| - 1;
      Rows(ids, m)[..n] == Rows(ids[..n], m) && Rows(ids, m)[n] == m[ids[n]]
  {
  }

  /** Taking one member out of `s` takes it out of those matching `p`, if it
      was one of them. */
  lemma MatchingWithout<T>(s: set<Id>, m: map<Id, T>, p: T -> bool, x: Id)
    requires s <= m.Keys && x in s
    ensures |Matching(s, m, p)| == |Matching(s - {x}, m, p)| + (if p(m[x]) then 1 else 0)
  {
    if p(m[x]) {
      assert Matching(s, m, p) == Matching(s - {x}, m, p) + {x};
    } else {
      assert Matching(s, m, p) == Matching(s - {x}, m, p);
    }
  }
}
