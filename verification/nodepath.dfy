/** Node's `path.extname` (POSIX flavour) on the names uploads arrive with,
    and the facts the upload middlewares rely on: it is case-blind in the
    sense that lower-casing commutes with it, and appending a name in front
    of an extension keeps that extension. */
module NodePath {
  import opened Base
  import opened Text

  /** `s.lastIndexOf(c)`: the last position holding `c`, if any. */
  function LastIndexOf(s: string, c: char): (r: Option<nat>)
    ensures r.None? <==> forall i :: 0 <= i < |s| ==> s[i] != c
    ensures r.Some? ==> r.value < |s| && s[r.value] == c && forall i :: r.value < i < |s| ==> s[i] != c
    decreases |s|
  {
    if |s| == 0 then None
    else if s[|s| - 1] == c then Some(|s| - 1)
    else LastIndexOf(s[..|s| - 1], c)
  }

  /** The last position of `c` is the only one with no `c` after it. */
  lemma LastIndexOfIs(s: string, c: char, k: nat)
    requires k < |s| && s[k] == c && forall i :: k < i < |s| ==> s[i] != c
    ensures LastIndexOf(s, c) == Some(k)
  {
    var m := LastIndexOf(s, c).value;
    assert m >= k;
    assert !(m > k) by { assert s[m] == c; }
  }

  /** Past the last `c`, the rest holds no `c`. */
  lemma NoCharAfter(s: string, k: nat, c: char)
    requires k < |s| && forall i :: k < i < |s| ==> s[i] != c
    ensures c !in s[k + 1..]
  {
    var t := s[k + 1..];
    forall j | 0 <= j < |t| ensures t[j] != c {
      assert t[j] == s[k + 1 + j];
    }
  }

  lemma SuffixKeepsMissing(s: string, k: nat, c: char)
    requires k <= |s| && c !in s
    ensures c !in s[k..]
  {
    forall j | 0 <= j < |s| - k ensures s[k..][j] != c {
      assert s[k..][j] == s[k + j];
    }
  }

  lemma EndsWithTrans(s: string, b: string, e: string)
    requires EndsWith(s, b) && EndsWith(b, e)
    ensures EndsWith(s, e)
  {
    assert s[|s| - |e|..] == s[|s| - |b|..][|b| - |e|..];
  }

  /** The part after the last '/'. */
  function Basename(s: string): (b: string)
    ensures '/' !in b
    ensures EndsWith(s, b)
    ensures |b| == |s| || s[|s| - |b| - 1] == '/'
  {
    match LastIndexOf(s, '/')
    case None => s
    case Some(k) => NoCharAfter(s, k, '/'); s[k + 1..]
  }

  lemma ExtensionShape(b: string, k: nat)
    requires k < |b| && b[k] == '.' && '/' !in b
    requires forall i :: k < i < |b| ==> b[i] != '.'
    ensures var e := b[k..]; e[0] == '.' && '.' !in e[1..] && '/' !in e && EndsWith(b, e)
  {
    NoCharAfter(b, k, '.');
    assert b[k..][1..] == b[k + 1..];
    SuffixKeepsMissing(b, k, '/');
  }

  /** The extension of one path segment. */
  function SegmentExt(b: string): (e: string)
    requires '/' !in b
    ensures e == "" || (e[0] == '.' && '.' !in e[1..] && '/' !in e && EndsWith(b, e))
  {
    match LastIndexOf(b, '.')
    case None => ""
    case Some(k) =>
      if k == 0 || b == ".." then ""
      else ExtensionShape(b, k); b[k..]
  }

  /** `path.extname(s)`: from the last '.' of the last segment to its end;
      empty when that segment has no '.', starts with its only '.', or is
      "..". */
  function ExtName(s: string): (e: string)
    ensures e == "" || (e[0] == '.' && '.' !in e[1..] && '/' !in e && EndsWith(s, e))
  {
    var b := Basename(s);
    var e := SegmentExt(b);
    if e != "" then EndsWithTrans(s, b, e); e else e
  }

  // ---------------------------------------------------------------------------
  // Lower-casing commutes with the extension.

  lemma LowerKeepsChar(s: string, c: char)
    requires c == '.' || c == '/'
    ensures forall i :: 0 <= i < |s| ==> (Lower(s)[i] == c <==> s[i] == c)
  {
  }

  lemma LastIndexOfLower(s: string, c: char)
    requires c == '.' || c == '/'
    ensures LastIndexOf(Lower(s), c) == LastIndexOf(s, c)
  {
    LowerKeepsChar(s, c);
    match LastIndexOf(s, c)
    case None =>
    case Some(k) => LastIndexOfIs(Lower(s), c, k);
  }

  lemma LowerSlice(s: string, k: nat)
    requires k <= |s|
    ensures Lower(s)[k..] == Lower(s[k..])
  {
  }

  lemma BasenameLower(s: string)
    ensures Basename(Lower(s)) == Lower(Basename(s))
  {
    LastIndexOfLower(s, '/');
    match LastIndexOf(s, '/')
    case None =>
      BasenameWhole(s);
      BasenameWhole(Lower(s));
    case Some(k) =>
      BasenameAfter(s, k);
      BasenameAfter(Lower(s), k);
      LowerSlice(s, k + 1);
  }

  lemma BasenameWhole(s: string)
    requires LastIndexOf(s, '/').None?
    ensures Basename(s) == s
  {
  }

  lemma BasenameAfter(s: string, k: nat)
    requires LastIndexOf(s, '/') == Some(k)
    ensures Basename(s) == s[k + 1..]
  {
  }


  lemma {:induction false} SegmentExtLower(b: string)
    requires '/' !in b
    ensures '/' !in Lower(b)
    ensures SegmentExt(Lower(b)) == Lower(SegmentExt(b))
  {
    LowerKeepsChar(b, '/');
    LowerKeepsChar(b, '.');
    LastIndexOfLower(b, '.');
    assert Lower(b) == ".." <==> b == ".." by {
      if Lower(b) == ".." { assert b == [b[0], b[1]]; }
    }
    match LastIndexOf(b, '.')
    case None =>
    case Some(k) => LowerSlice(b, k);
  }

  /** Taking the extension of a lower-cased name gives the lower-cased
      extension: `path.extname(name).toLowerCase()` is `path.extname` of the
      lower-cased name. */
  lemma {:induction false} ExtNameLower(s: string)
    ensures ExtName(Lower(s)) == Lower(ExtName(s))
  {
    BasenameLower(s);
    SegmentExtLower(Basename(s));
  }

  // ---------------------------------------------------------------------------
  // A name put in front of an extension.

  /** A '.' with neither '.' nor '/' after it, and neither just before it,
      starts the extension. */
  lemma {:induction false} ExtNameAt(s: string, n: nat)
    requires 0 < n < |s| && s[n] == '.'
    requires s[n - 1] != '/' && s[n - 1] != '.'
    requires forall i :: n < i < |s| ==> s[i] != '.' && s[i] != '/'
    ensures ExtName(s) == s[n..]
  {
    var b := Basename(s);
    var off := |s| - |b|;
    BasenameStartsBefore(s, n);
    assert b == s[off..];
    SliceKeepsExtension(s, off, n);
    SegmentExtAt(b, n - off, s[n..]);
  }

  /** The last segment starts at or before a position whose character and
      every later one are not '/'. */
  lemma BasenameStartsBefore(s: string, n: nat)
    requires 0 < n < |s| && s[n - 1] != '/'
    requires forall i :: n <= i < |s| ==> s[i] != '/'
    ensures |s| - |Basename(s)| < n
  {
    var off := |s| - |Basename(s)|;
    if off > 0 { assert s[off - 1] == '/'; }
  }

  /** Cutting the front off keeps the '.' at `n` and what follows it. */
  lemma SliceKeepsExtension(s: string, off: nat, n: nat)
    requires off < n < |s| && s[n] == '.' && s[n - 1] != '.'
    requires forall i :: n < i < |s| ==> s[i] != '.'
    ensures var b := s[off..];
      && b[n - off] == '.' && b[n - off - 1] != '.'
      && (forall i :: n - off < i < |b| ==> b[i] != '.')
      && b[n - off..] == s[n..]
  {
    var b := s[off..];
    forall i | n - off < i < |b| ensures b[i] != '.' {
      assert b[i] == s[off + i];
    }
  }

  /** Within one segment, a '.' with no '.' after it and a character other
      than '.' just before it starts the extension. */
  lemma SegmentExtAt(b: string, m: nat, e: string)
    requires '/' !in b
    requires 0 < m < |b| && b[m] == '.' && b[m - 1] != '.'
    requires forall i :: m < i < |b| ==> b[i] != '.'
    requires e == b[m..]
    ensures SegmentExt(b) == e
  {
    LastIndexOfIs(b, '.', m);
    assert b != "..";
  }

  /** Whatever comes in front, a name ending in a non-empty extension (and
      not in '/' or '.' before it) still has that extension. */
  lemma {:induction false} ExtNameOfPrefixed(prefix: string, name: string)
    requires ExtName(name) != ""
    requires |prefix| > 0 && prefix[|prefix| - 1] != '/' && prefix[|prefix| - 1] != '.'
    ensures ExtName(prefix + ExtName(name)) == ExtName(name)
  {
    var e := ExtName(name);
    PrefixedShape(prefix, e);
    ExtNameAt(prefix + e, |prefix|);
  }

  /** A name put in front of an extension: the '.' lands at the end of the
      name, and nothing after it is '.' or '/'. */
  lemma PrefixedShape(prefix: string, e: string)
    requires e != "" && e[0] == '.' && '.' !in e[1..] && '/' !in e
    requires |prefix| > 0 && prefix[|prefix| - 1] != '/' && prefix[|prefix| - 1] != '.'
    ensures var s := prefix + e; var n := |prefix|;
      && n < |s| && s[n] == '.' && s[n - 1] != '/' && s[n - 1] != '.'
      && (forall i :: n < i < |s| ==> s[i] != '.' && s[i] != '/')
      && s[n..] == e
  {
    var s := prefix + e;
    var n := |prefix|;
    ExtensionTail(e);
    forall i | n < i < |s| ensures s[i] != '.' && s[i] != '/' {
      assert s[i] == e[i - n];
    }
    assert s[n - 1] == prefix[n - 1];
  }


  /** After its leading '.', an extension holds neither '.' nor '/'. */
  lemma ExtensionTail(e: string)
    requires e != "" && '.' !in e[1..] && '/' !in e
    ensures forall j :: 0 < j < |e| ==> e[j] != '.' && e[j] != '/'
  {
    forall j | 0 < j < |e| ensures e[j] != '.' && e[j] != '/' {
      assert e[j] == e[1..][j - 1];
    }
  }

}
