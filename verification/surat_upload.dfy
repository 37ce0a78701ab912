/** The upload middleware for a group's two letters: where each letter is
    stored, the name it is stored under, and which files are let through. */
module SuratUpload {
  import opened Base
  import opened Text
  import opened NodePath

  /** The size limit: one mebibyte. */
  const MaxSuratBytes: nat := 1 * 1024 * 1024

  /** The covering letter goes to its own folder; every other field to the
      reply letters' folder. */
  function Destination(fieldname: string): (dir: string)
    ensures dir == "uploads/suratPengantar" <==> fieldname == "surat_pengantar"
    ensures dir == "uploads/suratPengantar" || dir == "uploads/suratBalasan"
  {
    "uploads/" + (if fieldname == "surat_pengantar" then "suratPengantar" else "suratBalasan")
  }

  /** The ISO timestamp with every ':' and '.' replaced by '-'. */
  function DateStamp(iso: string): (r: string)
    ensures |r| == |iso|
    ensures ':' !in r && '.' !in r
    ensures forall i :: 0 <= i < |iso| && iso[i] != ':' && iso[i] != '.' ==> r[i] == iso[i]
  {
    seq(|iso|, i requires 0 <= i < |iso| => if iso[i] == ':' || iso[i] == '.' then '-' else iso[i])
  }

  /** A body field inside a template literal: an absent one reads "undefined". */
  function BodyText(f: Option<string>): (t: string)
    ensures f.Some? ==> t == f.value
  {
    f.GetOr("undefined")
  }

  /** The stored name: field, time stamp, institution and group leader
      joined by '-', then the original extension. */
  function SuratFileName(fieldname: string, iso: string, instansi: Option<string>,
                         namaKetua: Option<string>, originalname: string): (name: string)
    ensures StartsWith(name, fieldname + "-" + DateStamp(iso) + "-")
  {
    fieldname + "-" + DateStamp(iso) + "-" + BodyText(instansi) + "-" + BodyText(namaKetua) + ExtName(originalname)
  }

  /** The stored name keeps the original extension, provided the leader's
      name does not itself end the stem in '/' or '.'. */
  lemma {:induction false} SuratFileNameKeepsExtension(fieldname: string, iso: string, instansi: Option<string>,
                                                       namaKetua: Option<string>, originalname: string)
    requires ExtName(originalname) != ""
    requires var t := BodyText(namaKetua); |t| == 0 || (t[|t| - 1] != '/' && t[|t| - 1] != '.')
    ensures ExtName(SuratFileName(fieldname, iso, instansi, namaKetua, originalname)) == ExtName(originalname)
  {
    var stem := fieldname + "-" + DateStamp(iso) + "-" + BodyText(instansi) + "-" + BodyText(namaKetua);
    assert stem[|stem| - 1] == if BodyText(namaKetua) == "" then '-' else BodyText(namaKetua)[|BodyText(namaKetua)| - 1];
    ExtNameOfPrefixed(stem, originalname);
  }

  /** The file filter and the size limit: only PDF files of at most one
      mebibyte get through. */
  predicate SuratAccepted(mimetype: string, size: nat) {
    mimetype == "application/pdf" && size <= MaxSuratBytes
  }
}
