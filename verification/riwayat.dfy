/** The education-history rows of participants: taking one participant's
    rows out, and writing a list of new ones for them. */
module RiwayatRows {
  import opened Base
  import opened Store

  /** The rows of participant `id`, in order. */
  function Of(rs: seq<Riwayat>, id: Id): (r: seq<Riwayat>)
    ensures forall x :: x in r <==> x in rs && x.idPeserta == id
    decreases |rs|
  {
    if |rs| == 0 then []
    else (if rs[0].idPeserta == id then [rs[0]] else []) + Of(rs[1..], id)
  }

  /** `riwayatPendidikan.deleteMany({ where: { id_peserta: id } })`: every
      row of `id` gone, the others kept in order. */
  function Without(rs: seq<Riwayat>, id: Id): (r: seq<Riwayat>)
    ensures forall x :: x in r <==> x in rs && x.idPeserta != id
    decreases |rs|
  {
    if |rs| == 0 then []
    else (if rs[0].idPeserta != id then [rs[0]] else []) + Without(rs[1..], id)
  }

  /** The participant a row built for `id` from `e` belongs to. The row is
      `{ id_peserta: id, ...e }`, so an `id_peserta` the entry carries
      itself overrides `id`. */
  function OwnerOf(id: Id, e: HistoryEntry): Id {
    if e.idPeserta.Some? then e.idPeserta.value else id
  }

  /** `createMany` of the listed entries for participant `id`, as written:
      each row keeps the entry's columns, and belongs to `id` exactly when
      the entry names no participant or names `id`. */
  function RowsFor(id: Id, entries: seq<HistoryEntry>): (r: seq<Riwayat>)
    ensures |r| == |entries|
    ensures forall i :: 0 <= i < |entries| ==> r[i].entry == entries[i].columns
    ensures forall i :: 0 <= i < |entries| ==>
      (r[i].idPeserta == id <==> entries[i].idPeserta.None? || entries[i].idPeserta == Some(id))
    ensures forall i :: 0 <= i < |entries| && entries[i].idPeserta.Some? ==>
      r[i].idPeserta == entries[i].idPeserta.value
  {
    seq(|entries|, i requires 0 <= i < |entries| => Riwayat(OwnerOf(id, entries[i]), entries[i].columns))
  }

  /** The rows as `{ ...e, id_peserta: id }` would build them: every one
      belongs to `id`. */
  function OwnRowsFor(id: Id, entries: seq<HistoryEntry>): (r: seq<Riwayat>)
    ensures |r| == |entries|
    ensures forall i :: 0 <= i < |entries| ==> r[i] == Riwayat(id, entries[i].columns)
  {
    seq(|entries|, i requires 0 <= i < |entries| => Riwayat(id, entries[i].columns))
  }

  /** Some entry carries `id_peserta` = `j` itself. */
  predicate Names(entries: seq<HistoryEntry>, j: Id) {
    exists i :: 0 <= i < |entries| && entries[i].idPeserta == Some(j)
  }

  /** No entry names a participant other than `id`. */
  predicate NamesNoOther(id: Id, entries: seq<HistoryEntry>) {
    forall i :: 0 <= i < |entries| ==> entries[i].idPeserta.None? || entries[i].idPeserta == Some(id)
  }

  /** Every row would belong to an existing participant; otherwise the
      database's foreign key refuses the `createMany`. */
  ghost predicate OwnersKnown(db: Db, id: Id, entries: seq<HistoryEntry>) {
    forall i :: 0 <= i < |entries| ==> OwnerOf(id, entries[i]) in db.peserta
  }

  /** The rows as written are the participant's own rows exactly when no
      entry names somebody else. */
  lemma AsWrittenIsOwnIff(id: Id, entries: seq<HistoryEntry>)
    ensures RowsFor(id, entries) == OwnRowsFor(id, entries) <==> NamesNoOther(id, entries)
  {
    var a, b := RowsFor(id, entries), OwnRowsFor(id, entries);
    if NamesNoOther(id, entries) {
      assert forall i :: 0 <= i < |a| ==> a[i] == b[i];
    } else {
      var i :| 0 <= i < |entries| && !(entries[i].idPeserta.None? || entries[i].idPeserta == Some(id));
      assert a[i].idPeserta != b[i].idPeserta;
    }
  }

  lemma {:induction false} OfAppend(a: seq<Riwayat>, b: seq<Riwayat>, id: Id)
    ensures Of(a + b, id) == Of(a, id) + Of(b, id)
    decreases |a|
  {
    if |a| == 0 {
      assert a + b == b;
    } else {
      assert (a + b)[0] == a[0] && (a + b)[1..] == a[1..] + b;
      OfAppend(a[1..], b, id);
    }
  }

  /** After taking out the rows of `id`, it has none and everyone else
      keeps theirs. */
  lemma {:induction false} OfWithout(rs: seq<Riwayat>, id: Id, j: Id)
    ensures Of(Without(rs, id), j) == if j == id then [] else Of(rs, j)
    decreases |rs|
  {
    if |rs| > 0 {
      OfWithout(rs[1..], id, j);
      var head := if rs[0].idPeserta != id then [rs[0]] else [];
      OfAppend(head, Without(rs[1..], id), j);
    }
  }

  lemma {:induction false} OfOwnRowsFor(id: Id, entries: seq<HistoryEntry>, j: Id)
    ensures Of(OwnRowsFor(id, entries), j) == if j == id then OwnRowsFor(id, entries) else []
    decreases |entries|
  {
    if |entries| > 0 {
      var rows := OwnRowsFor(id, entries);
      assert rows[1..] == OwnRowsFor(id, entries[1..]);
      OfOwnRowsFor(id, entries[1..], j);
    }
  }

  /** A participant other than `id` whom no entry names gets none of the
      written rows. */
  lemma OfRowsForUnnamed(id: Id, entries: seq<HistoryEntry>, j: Id)
    requires j != id && !Names(entries, j)
    ensures Of(RowsFor(id, entries), j) == []
  {
    var rows := RowsFor(id, entries);
    forall k | 0 <= k < |rows| ensures rows[k].idPeserta != j {
      assert entries[k].idPeserta != Some(j);
    }
    OfNone(rows, j);
  }

  /** A list with no row of `j` has none to give. */
  lemma {:induction false} OfNone(rs: seq<Riwayat>, j: Id)
    requires forall k :: 0 <= k < |rs| ==> rs[k].idPeserta != j
    ensures Of(rs, j) == []
    decreases |rs|
  {
    if |rs| > 0 {
      OfNone(rs[1..], j);
    }
  }

  /** Replacing the rows of `id` with rows built as intended: afterwards
      `id` has exactly the new rows, in the given order, and every other
      participant exactly the rows they had. */
  lemma Replace(rs: seq<Riwayat>, id: Id, entries: seq<HistoryEntry>, j: Id)
    ensures Of(Without(rs, id) + OwnRowsFor(id, entries), j) == if j == id then OwnRowsFor(id, entries) else Of(rs, j)
  {
    OfAppend(Without(rs, id), OwnRowsFor(id, entries), j);
    OfWithout(rs, id, j);
    OfOwnRowsFor(id, entries, j);
  }

  /** Replacing the rows of `id` as the handlers write it: `id` keeps none
      of its old rows, everyone keeps the rows they had otherwise, and each
      participant gains the new rows that land on them. */
  lemma ReplaceAsWritten(rs: seq<Riwayat>, id: Id, entries: seq<HistoryEntry>, j: Id)
    ensures Of(Without(rs, id) + RowsFor(id, entries), j) ==
      (if j == id then [] else Of(rs, j)) + Of(RowsFor(id, entries), j)
  {
    OfAppend(Without(rs, id), RowsFor(id, entries), j);
    OfWithout(rs, id, j);
  }

  /** An entry naming another participant writes into that participant's
      history, and the participant being updated gets no row from it. */
  lemma EntryRetargets(rs: seq<Riwayat>, id: Id, other: Id, columns: string)
    requires other != id
    ensures var after := Without(rs, id) + RowsFor(id, [HistoryEntry(Some(other), columns)]);
      && Of(after, other) == Of(rs, other) + [Riwayat(other, columns)]
      && Of(after, other) != Of(rs, other)
      && Of(after, id) == []
  {
    var es := [HistoryEntry(Some(other), columns)];
    assert RowsFor(id, es) == [Riwayat(other, columns)];
    ReplaceAsWritten(rs, id, es, other);
    ReplaceAsWritten(rs, id, es, id);
    assert Of([Riwayat(other, columns)], other) == [Riwayat(other, columns)] + Of([], other);
    assert Of([Riwayat(other, columns)], id) == Of([], id);
  }

  /** Removing a participant's rows a second time removes nothing more. */
  lemma {:induction false} WithoutTwice(rs: seq<Riwayat>, id: Id)
    ensures Without(Without(rs, id), id) == Without(rs, id)
    decreases |rs|
  {
    if |rs| > 0 {
      WithoutTwice(rs[1..], id);
      var head := if rs[0].idPeserta != id then [rs[0]] else [];
      WithoutAppend(head, Without(rs[1..], id), id);
    }
  }

  lemma {:induction false} WithoutAppend(a: seq<Riwayat>, b: seq<Riwayat>, id: Id)
    ensures Without(a + b, id) == Without(a, id) + Without(b, id)
    decreases |a|
  {
    if |a| == 0 {
      assert a + b == b;
    } else {
      assert (a + b)[0] == a[0] && (a + b)[1..] == a[1..] + b;
      WithoutAppend(a[1..], b, id);
    }
  }
}
