/** The upload middleware for certificate templates: which files it lets
    through, and the name it stores them under. */
module TemplateUpload {
  import opened Base
  import opened Text
  import opened NodePath

  const DocxMime := "application/vnd.openxmlformats-officedocument.wordprocessingml.document"

  /** The file filter: the declared type must be the Word document type and
      the lower-cased extension must contain "docx". */
  predicate TemplateAccepted(mimetype: string, originalname: string) {
    mimetype == DocxMime && Contains(Lower(ExtName(originalname)), "docx")
  }

  /** The extension test ignores letter case: a name is let through exactly
      when its lower-cased form is. */
  lemma {:induction false} FilterIgnoresCase(mimetype: string, originalname: string)
    ensures TemplateAccepted(mimetype, originalname) <==> TemplateAccepted(mimetype, Lower(originalname))
  {
    ExtNameLower(originalname);
    LowerIdempotent(ExtName(originalname));
  }

  /** A Word document named `<stem>.docx`, in any letter case, is let
      through; the same name with another declared type is not. */
  lemma {:induction false} DocxNamesAccepted(stem: string, ext: string, mimetype: string)
    requires |stem| > 0 && stem[|stem| - 1] != '/' && stem[|stem| - 1] != '.'
    requires Lower(ext) == ".docx"
    ensures TemplateAccepted(DocxMime, stem + ext)
    ensures mimetype != DocxMime ==> !TemplateAccepted(mimetype, stem + ext)
  {
    var s := stem + ext;
    var n := |stem|;
    assert |ext| == 5;
    forall i | 0 <= i < 5 ensures ext[i] == '.' <==> i == 0 {
      assert Lower(ext)[i] == LowerChar(ext[i]);
    }
    forall i | n < i < |s| ensures s[i] != '.' && s[i] != '/' {
      assert s[i] == ext[i - n];
      assert Lower(ext)[i - n] == LowerChar(ext[i - n]);
    }
    assert s[n] == ext[0];
    ExtNameAt(s, n);
    assert s[n..] == ext;
    assert Lower(ext)[1..] == "docx";
    assert Contains(Lower(ext)[1..], "docx");
  }

  /** The stored name: the upload time in milliseconds, '-', the original name. */
  function TemplateFileName(now: nat, originalname: string): (name: string)
    ensures StartsWith(name, NatToString(now))
  {
    NatToString(now) + "-" + originalname
  }

  /** The original name read back from a stored one: everything after the first '-'. */
  function OriginalName(stored: string): (r: Option<string>)
    ensures r.Some? ==> EndsWith(stored, r.value)
  {
    match IndexOf(stored, '-')
    case None => None
    case Some(k) => Some(stored[k + 1..])
  }

  /** The stored name gives back both the upload time, which is what
      `parseInt` reads from it, and the original name. */
  lemma {:induction false} TemplateFileNameRoundTrip(now: nat, originalname: string)
    ensures ParseInt(TemplateFileName(now, originalname)) == Some(now)
    ensures OriginalName(TemplateFileName(now, originalname)) == Some(originalname)
  {
    StoredTimeReadBack(now, originalname);
    StoredNameReadBack(now, originalname);
  }

  lemma {:induction false} StoredTimeReadBack(now: nat, originalname: string)
    ensures ParseInt(TemplateFileName(now, originalname)) == Some(now)
  {
    var d := NatToString(now);
    var s := TemplateFileName(now, originalname);
    NatToStringValue(now);
    assert s == d + ("-" + originalname);
    DigitPrefixStops(d, "-" + originalname);
    assert !IsSpace(s[0]) && s[0] != '-' && s[0] != '+' by { assert s[0] == d[0]; }
    assert TrimStart(s) == s;
  }

  lemma {:induction false} StoredNameReadBack(now: nat, originalname: string)
    ensures OriginalName(TemplateFileName(now, originalname)) == Some(originalname)
  {
    var d := NatToString(now);
    var s := TemplateFileName(now, originalname);
    NatToStringValue(now);
    assert s[|d|] == '-';
    assert forall i :: 0 <= i < |d| ==> s[i] == d[i];
    assert IndexOf(s, '-') == Some(|d|);
    assert s[|d| + 1..] == originalname;
  }
}
