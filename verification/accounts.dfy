/** Staff account management: the e-mail format check, creating, listing,
    editing and deleting staff accounts, with e-mail and NIP kept unique and
    the last administrator protected from deletion. */
module Accounts {
  import opened Base
  import opened Text
  import opened Store

  // ---------------------------------------------------------------------------
  // The e-mail format.

  /** A stretch of the address the pattern's `[^\s@]+` pieces may cover. */
  predicate Plain(t: string) {
    forall i :: 0 <= i < |t| ==> !IsSpace(t[i]) && t[i] != '@'
  }

  /** The pattern `^[^\s@]+@[^\s@]+\.[^\s@]+$` read piece by piece: a
      non-empty local part, '@', a non-empty stretch, '.', and a non-empty
      rest, none of them holding white space or '@'. The domain may hold
      further dots on either side of the chosen one. */
  ghost predicate MatchesEmailPattern(s: string) {
    exists k, j :: 0 < k && k + 1 < j < |s| - 1 && s[k] == '@' && s[j] == '.'
      && Plain(s[..k]) && Plain(s[k + 1..j]) && Plain(s[j + 1..])
  }

  /** Some '.' of the domain has a character on each side. */
  predicate DotInside(d: string) {
    exists j :: 1 <= j < |d| - 1 && d[j] == '.'
  }

  /** `validateEmail`: no white space, exactly one '@' with something before
      it, and a '.' inside the part after it. */
  predicate ValidEmail(s: string) {
    && NoSpace(s)
    && match IndexOf(s, '@')
       case None => false
       case Some(k) => k > 0 && '@' !in s[k + 1..] && DotInside(s[k + 1..])
  }

  /** Positions `lo` to `hi` of `s` hold neither white space nor '@'. */
  predicate PlainBetween(s: string, lo: int, hi: int)
    requires 0 <= lo <= hi <= |s|
  {
    forall i :: lo <= i < hi ==> !IsSpace(s[i]) && s[i] != '@'
  }

  lemma PlainSlice(s: string, lo: int, hi: int)
    requires 0 <= lo <= hi <= |s|
    ensures Plain(s[lo..hi]) <==> PlainBetween(s, lo, hi)
  {
    if Plain(s[lo..hi]) {
      forall i | lo <= i < hi ensures !IsSpace(s[i]) && s[i] != '@' {
        assert s[i] == s[lo..hi][i - lo];
      }
    }
  }

  /** Every address `validateEmail` accepts matches the pattern. */
  lemma {:induction false} ValidEmailMatches(s: string)
    requires ValidEmail(s)
    ensures MatchesEmailPattern(s)
  {
    var k := IndexOf(s, '@').value;
    var d := s[k + 1..];
    var jd :| 1 <= jd < |d| - 1 && d[jd] == '.';
    var j := k + 1 + jd;
    assert s[j] == '.';
    assert PlainBetween(s, 0, k) by {
      forall i | 0 <= i < k ensures s[i] != '@' {
        assert s[i] == s[..k][i];
      }
    }
    assert PlainBetween(s, k + 1, |s|) by {
      forall i | k + 1 <= i < |s| ensures s[i] != '@' {
        assert s[i] == d[i - k - 1];
      }
    }
    PlainSlice(s, 0, k);
    PlainSlice(s, k + 1, j);
    PlainSlice(s, j + 1, |s|);
    assert s[..k] == s[0..k];
    assert s[j + 1..] == s[j + 1..|s|];
  }

  /** Every address matching the pattern passes `validateEmail`. */
  lemma {:induction false} PatternIsValid(s: string)
    requires MatchesEmailPattern(s)
    ensures ValidEmail(s)
  {
    var k, j :| 0 < k && k + 1 < j < |s| - 1 && s[k] == '@' && s[j] == '.'
      && Plain(s[..k]) && Plain(s[k + 1..j]) && Plain(s[j + 1..]);
    assert s[..k] == s[0..k];
    assert s[j + 1..] == s[j + 1..|s|];
    PlainSlice(s, 0, k);
    PlainSlice(s, k + 1, j);
    PlainSlice(s, j + 1, |s|);
    PiecesHaveNoSpace(s, k, j);
    FirstAt(s, k);
    OnlyOneAt(s, k, j);
    assert s[k + 1..][j - k - 1] == '.';
  }

  /** The three plain pieces and the '@' and '.' between them hold no white
      space. */
  lemma PiecesHaveNoSpace(s: string, k: int, j: int)
    requires 0 < k < j < |s| && s[k] == '@' && s[j] == '.'
    requires PlainBetween(s, 0, k) && PlainBetween(s, k + 1, j) && PlainBetween(s, j + 1, |s|)
    ensures NoSpace(s)
  {
    forall i | 0 <= i < |s| ensures !IsSpace(s[i]) {
      if i < k { assert PlainBetween(s, 0, k); }
      else if k < i < j { assert PlainBetween(s, k + 1, j); }
      else if j < i { assert PlainBetween(s, j + 1, |s|); }
    }
  }

  /** An '@' with none before it is the first one. */
  lemma FirstAt(s: string, k: int)
    requires 0 < k < |s| && s[k] == '@' && PlainBetween(s, 0, k)
    ensures IndexOf(s, '@') == Some(k)
  {
    assert s[k] in s;
    var r := IndexOf(s, '@').value;
    assert !(r < k);
    assert !(r > k);
  }

  /** After the '@', the two plain pieces and the '.' hold no further '@'. */
  lemma OnlyOneAt(s: string, k: int, j: int)
    requires 0 < k < j < |s| && s[j] == '.'
    requires PlainBetween(s, k + 1, j) && PlainBetween(s, j + 1, |s|)
    ensures '@' !in s[k + 1..]
  {
    var d := s[k + 1..];
    forall i | 0 <= i < |d| ensures d[i] != '@' {
      assert d[i] == s[i + k + 1];
      if i < j - k - 1 { assert PlainBetween(s, k + 1, j); }
      else if i > j - k - 1 { assert PlainBetween(s, j + 1, |s|); }
    }
  }

  /** `validateEmail` accepts exactly the addresses the pattern matches. */
  lemma ValidEmailIsPattern(s: string)
    ensures ValidEmail(s) <==> MatchesEmailPattern(s)
  {
    if ValidEmail(s) { ValidEmailMatches(s); }
    if MatchesEmailPattern(s) { PatternIsValid(s); }
  }

  // ---------------------------------------------------------------------------
  // Accounts.

  /** An account as the handlers return it: every column but the password. */
  datatype PegawaiView = PegawaiView(id: Id, email: string, nama: string, nip: string,
                                     jabatan: string, role: string, createdAt: int)

  function ViewOf(id: Id, p: Pegawai): (v: PegawaiView)
    ensures v.id == id && v.email == p.email && v.nama == p.nama && v.nip == p.nip
    ensures v.jabatan == p.jabatan && v.role == p.role && v.createdAt == p.createdAt
  {
    PegawaiView(id, p.email, p.nama, p.nip, p.jabatan, p.role, p.createdAt)
  }

  /** Why a request was refused with 400. */
  datatype Refusal = MissingField | BadEmail | EmailTaken | NipTaken | LastAdmin | HasDependents

  datatype Reply =
    | Created(view: PegawaiView)
    | Listed(ids: seq<Id>, views: seq<PegawaiView>)
    | Updated(view: PegawaiView)
    | Deleted(id: Id, email: string, nama: string)
    | BadRequest(why: Refusal)
    | NotFound
  {
    function Code(): nat {
      match this
      case Created(_) => 201
      case Listed(_, _) => 200
      case Updated(_) => 200
      case Deleted(_, _, _) => 200
      case BadRequest(_) => 400
      case NotFound => 404
    }
  }

  /** The body of a create or edit request; absent fields are `None`. */
  datatype AccountForm = AccountForm(
    email: Option<string>,
    password: Option<string>,
    nama: Option<string>,
    nip: Option<string>,
    jabatan: Option<string>,
    role: Option<string>)

  ghost predicate EmailUsed(db: Db, email: string, except: Option<Id>) {
    exists id :: id in db.pegawai && db.pegawai[id].email == email && Some(id) != except
  }

  ghost predicate NipUsed(db: Db, nip: string, except: Option<Id>) {
    exists id :: id in db.pegawai && db.pegawai[id].nip == nip && Some(id) != except
  }

  /** No two staff accounts share an e-mail address or a NIP. */
  ghost predicate UniqueAccounts(db: Db) {
    forall a, b :: a in db.pegawai && b in db.pegawai && a != b ==>
      db.pegawai[a].email != db.pegawai[b].email && db.pegawai[a].nip != db.pegawai[b].nip
  }

  /** Every field of a create request is given and truthy. */
  predicate Complete(f: AccountForm) {
    Present(f.email) && Present(f.password) && Present(f.nama) && Present(f.nip)
    && Present(f.jabatan) && Present(f.role)
  }

  /** `createPegawai`. The validations run in order — every field present, the
      e-mail well formed, the e-mail unused, the NIP unused — and the first
      that fails answers 400 with nothing stored. */
  ghost function CreatePegawai(db: Db, f: AccountForm, now: int): (r: Step<Reply>)
    ensures !r.reply.Created? ==> r.db == db && r.reply.BadRequest?
    ensures r.reply == BadRequest(MissingField) <==> !Complete(f)
    ensures r.reply == BadRequest(BadEmail) <==> Complete(f) && !ValidEmail(f.email.value)
    ensures r.reply == BadRequest(EmailTaken) <==>
      Complete(f) && ValidEmail(f.email.value) && EmailUsed(db, f.email.value, None)
    ensures r.reply == BadRequest(NipTaken) <==>
      Complete(f) && ValidEmail(f.email.value) && !EmailUsed(db, f.email.value, None) && NipUsed(db, f.nip.value, None)
    ensures r.reply.Created? <==>
      Complete(f) && ValidEmail(f.email.value) && !EmailUsed(db, f.email.value, None) && !NipUsed(db, f.nip.value, None)
    ensures r.reply.Created? ==> (
      && var id := r.reply.view.id;
      && id !in db.pegawai
      && r.db == db.(pegawai := db.pegawai[id := Pegawai(f.email.value, BcryptOf(f.password.value),
           f.nama.value, f.nip.value, f.jabatan.value, f.role.value, now)])
      && r.reply.view == ViewOf(id, r.db.pegawai[id]))
  {
    if !Complete(f) then Step(db, BadRequest(MissingField))
    else if !ValidEmail(f.email.value) then Step(db, BadRequest(BadEmail))
    else if EmailUsed(db, f.email.value, None) then Step(db, BadRequest(EmailTaken))
    else if NipUsed(db, f.nip.value, None) then Step(db, BadRequest(NipTaken))
    else
      var id := FreshId(db.pegawai.Keys);
      var p := Pegawai(f.email.value, BcryptOf(f.password.value), f.nama.value, f.nip.value,
                       f.jabatan.value, f.role.value, now);
      Step(db.(pegawai := db.pegawai[id := p]), Created(ViewOf(id, p)))
  }

  lemma CreateKeepsUnique(db: Db, f: AccountForm, now: int)
    requires UniqueAccounts(db)
    ensures UniqueAccounts(CreatePegawai(db, f, now).db)
  {
  }

  /** `getAllPegawai`: every account whose role is not 'Admin', newest first,
      without passwords. */
  method GetAllPegawai(db: Db) returns (r: Reply)
    ensures r.Listed? && |r.views| == |r.ids|
    ensures forall id :: id in r.ids <==> id in db.pegawai && db.pegawai[id].role != "Admin"
    ensures SortedDesc(r.ids, db.pegawai, (p: Pegawai) => p.createdAt) && Distinct(r.ids)
    ensures forall i :: 0 <= i < |r.ids| ==> r.views[i] == ViewOf(r.ids[i], db.pegawai[r.ids[i]])
    ensures forall i :: 0 <= i < |r.views| ==> r.views[i].role != "Admin"
  {
    var sel := set id | id in db.pegawai && db.pegawai[id].role != "Admin";
    var ids := ListDesc(db.pegawai, sel, (p: Pegawai) => p.createdAt);
    var views := seq(|ids|, i requires 0 <= i < |ids| => ViewOf(ids[i], db.pegawai[ids[i]]));
    r := Listed(ids, views);
  }

  /** `getAllAccount`: every account, administrators included, in no
      particular order, without passwords. */
  method GetAllAccount(db: Db) returns (r: Reply)
    ensures r.Listed? && |r.views| == |r.ids| == |db.pegawai|
    ensures forall id :: id in r.ids <==> id in db.pegawai
    ensures forall i :: 0 <= i < |r.ids| ==> r.ids[i] in db.pegawai && r.views[i] == ViewOf(r.ids[i], db.pegawai[r.ids[i]])
  {
    var ids := ListDesc(db.pegawai, db.pegawai.Keys, (p: Pegawai) => p.createdAt);
    var views := seq(|ids|, i requires 0 <= i < |ids| => ViewOf(ids[i], db.pegawai[ids[i]]));
    r := Listed(ids, views);
  }

  /** The record after an accepted edit: name, position and role replaced,
      e-mail, NIP and password replaced only when supplied. */
  function Edited(p: Pegawai, f: AccountForm): (q: Pegawai)
    requires Present(f.nama) && Present(f.jabatan) && Present(f.role)
    ensures q.nama == f.nama.value && q.jabatan == f.jabatan.value && q.role == f.role.value
    ensures q.email == OrKeep(f.email, p.email) && q.nip == OrKeep(f.nip, p.nip)
    ensures q.password == if Present(f.password) then BcryptOf(f.password.value) else p.password
    ensures q.createdAt == p.createdAt
  {
    p.(nama := f.nama.value, jabatan := f.jabatan.value, role := f.role.value,
       email := OrKeep(f.email, p.email), nip := OrKeep(f.nip, p.nip),
       password := if Present(f.password) then BcryptOf(f.password.value) else p.password)
  }

  /** The validations `editPegawai` makes on an existing account, in order: name,
      position and role present; a changed e-mail well formed and free; a
      changed NIP free. `None` when all pass. */
  ghost function EditRefusal(db: Db, id: Id, f: AccountForm): (r: Option<Refusal>)
    requires id in db.pegawai
    ensures r.None? <==>
      && Present(f.nama) && Present(f.jabatan) && Present(f.role)
      && (Present(f.email) && f.email.value != db.pegawai[id].email ==>
            ValidEmail(f.email.value) && !EmailUsed(db, f.email.value, Some(id)))
      && (Present(f.nip) && f.nip.value != db.pegawai[id].nip ==> !NipUsed(db, f.nip.value, Some(id)))
    ensures r == Some(MissingField) <==> !(Present(f.nama) && Present(f.jabatan) && Present(f.role))
    ensures r == Some(BadEmail) <==>
      && Present(f.nama) && Present(f.jabatan) && Present(f.role)
      && Present(f.email) && f.email.value != db.pegawai[id].email && !ValidEmail(f.email.value)
    ensures r == Some(EmailTaken) <==>
      && Present(f.nama) && Present(f.jabatan) && Present(f.role)
      && Present(f.email) && f.email.value != db.pegawai[id].email && ValidEmail(f.email.value)
      && EmailUsed(db, f.email.value, Some(id))
    ensures r == Some(NipTaken) <==>
      && Present(f.nama) && Present(f.jabatan) && Present(f.role)
      && (Present(f.email) && f.email.value != db.pegawai[id].email ==>
            ValidEmail(f.email.value) && !EmailUsed(db, f.email.value, Some(id)))
      && Present(f.nip) && f.nip.value != db.pegawai[id].nip && NipUsed(db, f.nip.value, Some(id))
  {
    var prev := db.pegawai[id];
    if !(Present(f.nama) && Present(f.jabatan) && Present(f.role)) then Some(MissingField)
    else if Present(f.email) && f.email.value != prev.email && !ValidEmail(f.email.value) then Some(BadEmail)
    else if Present(f.email) && f.email.value != prev.email && EmailUsed(db, f.email.value, Some(id)) then Some(EmailTaken)
    else if Present(f.nip) && f.nip.value != prev.nip && NipUsed(db, f.nip.value, Some(id)) then Some(NipTaken)
    else None
  }

  /** `editPegawai`: 404 for an unknown id; 400 when name, position or role
      is empty; a changed e-mail must be well formed and unused by any other
      account, a changed NIP unused by any other account. */
  ghost function EditPegawai(db: Db, id: Id, f: AccountForm): (r: Step<Reply>)
    ensures id !in db.pegawai <==> r.reply == NotFound
    ensures !r.reply.Updated? ==> r.db == db
    ensures id in db.pegawai ==> (r.reply.Updated? <==> EditRefusal(db, id, f).None?)
    ensures id in db.pegawai && EditRefusal(db, id, f).Some? ==> r.reply == BadRequest(EditRefusal(db, id, f).value)
    ensures r.reply.Updated? ==> (
      && id in db.pegawai && Present(f.nama) && Present(f.jabatan) && Present(f.role)
      && (Present(f.email) && f.email.value != db.pegawai[id].email ==>
            ValidEmail(f.email.value) && !EmailUsed(db, f.email.value, Some(id)))
      && (Present(f.nip) && f.nip.value != db.pegawai[id].nip ==> !NipUsed(db, f.nip.value, Some(id)))
      && r.db == db.(pegawai := db.pegawai[id := Edited(db.pegawai[id], f)])
      && r.reply.view == ViewOf(id, r.db.pegawai[id]))
  {
    if id !in db.pegawai then Step(db, NotFound)
    else match EditRefusal(db, id, f)
      case Some(why) => Step(db, BadRequest(why))
      case None =>
        var q := Edited(db.pegawai[id], f);
        Step(db.(pegawai := db.pegawai[id := q]), Updated(ViewOf(id, q)))
  }

  /** An edit never makes two accounts share an e-mail address or a NIP. */
  lemma {:induction false} EditKeepsUnique(db: Db, id: Id, f: AccountForm)
    requires UniqueAccounts(db)
    ensures UniqueAccounts(EditPegawai(db, id, f).db)
  {
    var r := EditPegawai(db, id, f);
    if r.reply.Updated? {
      var prev := db.pegawai[id];
      var q := r.db.pegawai[id];
      forall a, b | a in r.db.pegawai && b in r.db.pegawai && a != b
        ensures r.db.pegawai[a].email != r.db.pegawai[b].email && r.db.pegawai[a].nip != r.db.pegawai[b].nip
      {
        if a == id || b == id {
          var other := if a == id then b else a;
          assert other in db.pegawai && other != id && r.db.pegawai[other] == db.pegawai[other];
          if q.email != prev.email {
            assert !EmailUsed(db, q.email, Some(id));
          }
          if q.nip != prev.nip {
            assert !NipUsed(db, q.nip, Some(id));
          }
        }
      }
    }
  }

  /** Whether removing the account would break a foreign key: tasks it gave
      out or notifications addressed to it still refer to it. */
  ghost predicate Referenced(db: Db, id: Id) {
    (exists t :: t in db.tugas && db.tugas[t].idPegawai == id)
    || (exists n :: n in db.staffNotifs && n.recipient == id)
  }

  /** `deletePegawai`: 404 for an unknown id; an administrator is kept while
      at most one administrator exists; a still-referenced account is refused
      by the database's foreign key (400); otherwise exactly that account goes. */
  ghost function DeletePegawai(db: Db, id: Id): (r: Step<Reply>)
    ensures id !in db.pegawai <==> r.reply == NotFound
    ensures !r.reply.Deleted? ==> r.db == db
    ensures id in db.pegawai && db.pegawai[id].role == "Admin" && |Admins(db)| <= 1
      ==> r.reply == BadRequest(LastAdmin)
    ensures r.reply.Deleted? <==>
      id in db.pegawai && !(db.pegawai[id].role == "Admin" && |Admins(db)| <= 1) && !Referenced(db, id)
    ensures r.reply.Deleted? ==>
      r.db == db.(pegawai := db.pegawai - {id})
      && r.reply == Deleted(id, db.pegawai[id].email, db.pegawai[id].nama)
  {
    if id !in db.pegawai then Step(db, NotFound)
    else
      var p := db.pegawai[id];
      if p.role == "Admin" && |Admins(db)| <= 1 then Step(db, BadRequest(LastAdmin))
      else if Referenced(db, id) then Step(db, BadRequest(HasDependents))
      else Step(db.(pegawai := db.pegawai - {id}), Deleted(id, p.email, p.nama))
  }

  /** Deleting never leaves the system without an administrator once it has one. */
  lemma {:induction false} DeleteKeepsAnAdmin(db: Db, id: Id)
    requires |Admins(db)| >= 1
    ensures |Admins(DeletePegawai(db, id).db)| >= 1
  {
    var r := DeletePegawai(db, id);
    if r.reply.Deleted? {
      if db.pegawai[id].role == "Admin" {
        assert Admins(r.db) == Admins(db) - {id};
        assert id in Admins(db);
      } else {
        assert Admins(r.db) == Admins(db);
      }
    }
  }

  lemma DeleteKeepsUnique(db: Db, id: Id)
    requires UniqueAccounts(db)
    ensures UniqueAccounts(DeletePegawai(db, id).db)
  {
  }

  /** The staff listing is the account listing without the administrators,
      so the two counts differ by exactly the number of administrators. */
  method StaffListingOmitsAdmins(db: Db) returns (staff: Reply, all: Reply)
    ensures staff.Listed? && all.Listed?
    ensures forall id :: id in staff.ids <==> id in all.ids && id !in Admins(db)
    ensures |staff.ids| + |Admins(db)| == |all.ids|
  {
    staff := GetAllPegawai(db);
    all := GetAllAccount(db);
    DistinctLength(staff.ids, NonAdmins(db));
    NonAdminsAndAdmins(db);
  }

  /** The accounts whose role is not 'Admin'. */
  ghost function NonAdmins(db: Db): set<Id> {
    set id | id in db.pegawai && db.pegawai[id].role != "Admin"
  }

  /** Every account is an administrator or not, never both. */
  lemma NonAdminsAndAdmins(db: Db)
    ensures |NonAdmins(db)| + |Admins(db)| == |db.pegawai|
  {
    assert db.pegawai.Keys == NonAdmins(db) + Admins(db);
    assert NonAdmins(db) !! Admins(db);
  }

  /** The account listing around a deletion: afterwards it holds every
      account it held before except the deleted one, and is one shorter. */
  method ListingAfterDelete(db: Db, after: Db, id: Id) returns (before: Reply, listed: Reply)
    requires DeletePegawai(db, id).reply.Deleted? && after == DeletePegawai(db, id).db
    ensures before.Listed? && listed.Listed?
    ensures id in before.ids && id !in listed.ids
    ensures forall x :: x in listed.ids <==> x in before.ids && x != id
    ensures |listed.ids| == |before.ids| - 1
  {
    before := GetAllAccount(db);
    listed := GetAllAccount(after);
  }
}
