/** The markup scanner of html_to_text. */
module HtmlScan {
  import opened Bytes
  import opened Utf8
  import opened Sanitize
  import opened StrBuf
  import opened Entity

  const LT: Char := 60
  const GT: Char := 62
  const SLASH: Char := 47
  const COMMENT_OPEN: Text := [60, 33, 45, 45]
  const COMMENT_CLOSE: Text := [45, 45, 62]

  function Lower(c: Char): Char { if 65 <= c <= 90 then c + 32 else c }

  /** The text with ASCII capitals lowered. */
  function Fold(s: Text): (r: Text)
    ensures |r| == |s| && forall i | 0 <= i < |s| :: r[i] == Lower(s[i])
  {
    seq(|s|, i requires 0 <= i < |s| => Lower(s[i]))
  }

  lemma FoldConcat(a: Text, b: Text)
    ensures Fold(a + b) == Fold(a) + Fold(b)
  {
  }

  /** Case-insensitive search; the haystack itself for an empty needle. */
  method StrIContains(haystack: Text, needle: Text) returns (r: int)
    ensures r == FindText(Fold(haystack), Fold(needle))
  {
    ghost var h, n := Fold(haystack), Fold(needle);
    assert forall i: nat {:trigger OccursAt(h, n, i)} | OccursAt(h, n, i) :: i + |n| <= |h|;
    if |needle| == 0 {
      assert OccursAt(h, n, 0);
      return 0;
    }
    var p := 0;
    while p < |haystack|
      invariant p <= |haystack|
      invariant forall i: nat | i < p :: !OccursAt(h, n, i)
    {
      var same := EqualsNoCase(haystack[p..], needle);
      assert h[p..] == Fold(haystack[p..]);
      assert same <==> OccursAt(h, n, p);
      if same {
        return p;
      }
      p := p + 1;
    }
    return -1;
  }

  /** `strncasecmp(s, needle, strlen(needle)) == 0`. */
  method EqualsNoCase(s: Text, needle: Text) returns (same: bool)
    ensures same <==> Fold(needle) <= Fold(s)
  {
    var i := 0;
    while i < |needle|
      invariant i <= |needle| && i <= |s|
      invariant forall j | 0 <= j < i :: Lower(s[j]) == Lower(needle[j])
    {
      if i == |s| {
        return false;
      }
      if Lower(s[i]) != Lower(needle[i]) {
        assert Fold(s)[i] != Fold(needle)[i];
        return false;
      }
      i := i + 1;
    }
    return true;
  }

  predicate IsAlnum(c: Char) { 97 <= c <= 122 || 65 <= c <= 90 || 48 <= c <= 57 }

  function AlnumLen(s: Text): (n: nat)
    ensures n <= |s|
  {
    if s != [] && IsAlnum(s[0]) then 1 + AlnumLen(s[1..]) else 0
  }

  /** A block element, whose tag stands for a line break. */
  predicate TagIsBreak(name: Text) {
    var f := Fold(name);
    || Spells("br", f) || Spells("p", f) || Spells("div", f) || Spells("li", f) || Spells("tr", f)
    || Spells("ul", f) || Spells("ol", f) || Spells("h1", f) || Spells("h2", f) || Spells("h3", f)
    || Spells("h4", f) || Spells("h5", f) || Spells("h6", f) || Spells("hr", f) || Spells("blockquote", f)
    || Spells("pre", f) || Spells("table", f) || Spells("section", f) || Spells("article", f)
    || Spells("header", f) || Spells("footer", f) || Spells("figure", f)
  }

  /** A tag's inside: everything between its '<' and its '>'. */
  predicate IsClosing(inner: Text) { inner != [] && inner[0] == SLASH }

  function TagName(inner: Text): Text {
    var t := if IsClosing(inner) then inner[1..] else inner;
    t[..AlnumLen(t)]
  }

  /** The opening tag of an element whose content is skipped. */
  predicate Opens(inner: Text, element: string) {
    !IsClosing(inner) && Spells(element, Fold(TagName(inner)))
  }

  const SCRIPT := "script"
  const STYLE := "style"

  /** `</script` and `</style`. */
  const SCRIPT_CLOSE: Text := [60, 47, 115, 99, 114, 105, 112, 116]
  const STYLE_CLOSE: Text := [60, 47, 115, 116, 121, 108, 101]

  /** How much of the text a '<' at its start takes up, and whether it stands for a line break. */
  datatype Markup = Markup(len: nat, isBreak: bool)

  function Skip(s: Text, end: nat, close: Text): (n: nat)
    requires end < |s|
    ensures end <= n <= |s|
  {
    var c := FindText(Fold(s[end..]), close);
    if c >= 0 then end + c else end + 1
  }

  function MarkupAt(s: Text): (m: Markup)
    requires s != [] && s[0] == LT
    ensures m.len <= |s|
  {
    if COMMENT_OPEN <= s then
      var e := FindText(s[4..], COMMENT_CLOSE);
      Markup(if e >= 0 then 4 + e + 3 else |s|, false)
    else
      var end := Find(s, GT);
      if end < 0 then Markup(1, false)
      else
        var inner := s[1..end];
        if Opens(inner, SCRIPT) then Markup(Skip(s, end, SCRIPT_CLOSE), false)
        else if Opens(inner, STYLE) then Markup(Skip(s, end, STYLE_CLOSE), false)
        else Markup(end + 1, TagIsBreak(TagName(inner)))
  }

  /** The scanner always advances. */
  lemma MarkupAdvances(s: Text)
    requires s != [] && s[0] == LT
    ensures MarkupAt(s).len > 0
  {
  }

  /** The scan before filtering and normalizing. */
  function Scan(s: Text): Text
    decreases |s|
  {
    if s == [] then []
    else if s[0] == LT then
      MarkupAdvances(s);
      var m := MarkupAt(s);
      (if m.isBreak then [NL] else []) + Scan(s[m.len..])
    else if s[0] == AMP && Reference(s[1..]).consumed > 1 then
      var r := Reference(s[1..]);
      Encode(Substitute(r.cp)) + Scan(s[r.consumed..])
    else [s[0]] + Scan(s[1..])
  }

  // ----- the code --------------------------------------------------------------

  lemma AlnumLenAt(t: Text, n: nat)
    requires n <= |t| && (forall i | 0 <= i < n :: IsAlnum(t[i])) && (n < |t| ==> !IsAlnum(t[n]))
    ensures AlnumLen(t) == n
    decreases n
  {
    if n > 0 {
      AlnumLenAt(t[1..], n - 1);
    }
  }

  /** Find the end of a tag name. */
  method NameLength(t: Text) returns (n: nat)
    ensures n == AlnumLen(t)
  {
    n := 0;
    while n < |t| && IsAlnum(t[n])
      invariant n <= |t| && forall i | 0 <= i < n :: IsAlnum(t[i])
    {
      n := n + 1;
    }
    AlnumLenAt(t, n);
  }

  /** Where the content of a script or style element stops. */
  method SkipElement(s: Text, end: nat, mark: Text) returns (n: nat)
    requires end < |s| && Fold(mark) == mark
    ensures n == Skip(s, end, mark)
  {
    var close := StrIContains(s[end..], mark);
    n := if close >= 0 then end + close else end + 1;
  }

  /** The tag branch, for a '<' whose '>' is at `end`. */
  method ReadTag(s: Text, end: nat) returns (m: Markup)
    requires 0 < end < |s| && s[0] == LT && end == Find(s, GT) && !(COMMENT_OPEN <= s)
    ensures m == MarkupAt(s)
  {
    hide Skip, AlnumLen, Find, FindText, TagIsBreak;
    var inner := s[1..end];
    var closing := inner != [] && inner[0] == SLASH;
    var t := if closing then inner[1..] else inner;
    var n := NameLength(t);
    var name := t[..n];
    if !closing && Spells(SCRIPT, Fold(name)) {
      var k := SkipElement(s, end, SCRIPT_CLOSE);
      m := Markup(k, false);
    } else if !closing && Spells(STYLE, Fold(name)) {
      var k := SkipElement(s, end, STYLE_CLOSE);
      m := Markup(k, false);
    } else {
      m := Markup(end + 1, TagIsBreak(name));
    }
  }

  method ReadMarkup(s: Text) returns (m: Markup)
    requires s != [] && s[0] == LT
    ensures m == MarkupAt(s)
  {
    if COMMENT_OPEN <= s {
      var e := FindText(s[4..], COMMENT_CLOSE);
      return Markup(if e >= 0 then 4 + e + 3 else |s|, false);
    }
    var end := Find(s, GT);
    if end < 0 {
      return Markup(1, false);
    }
    m := ReadTag(s, end);
  }

  lemma ScanMarkupAt(s: Text, p: nat, m: Markup)
    requires p < |s| && s[p] == LT && m == MarkupAt(s[p..])
    ensures m.len > 0 && p + m.len <= |s|
    ensures Scan(s[p..]) == (if m.isBreak then [NL] else []) + Scan(s[p + m.len..])
  {
    MarkupAdvances(s[p..]);
    hide MarkupAt;
    assert s[p..][m.len..] == s[p + m.len..];
  }

  lemma ScanReferenceAt(s: Text, p: nat, r: Ref)
    requires p < |s| && s[p] == AMP && r == Reference(s[p + 1..]) && r.consumed > 1
    ensures p + r.consumed <= |s|
    ensures Scan(s[p..]) == Encode(Substitute(r.cp)) + Scan(s[p + r.consumed..])
  {
    hide Encode, Substitute, Reference;
    var t := s[p..];
    assert t[1..] == s[p + 1..];
    assert t[r.consumed..] == s[p + r.consumed..];
  }

  lemma ScanByteAt(s: Text, p: nat)
    requires p < |s| && s[p] != LT && !(s[p] == AMP && Reference(s[p + 1..]).consumed > 1)
    ensures Scan(s[p..]) == [s[p]] + Scan(s[p + 1..])
  {
    assert s[p..][1..] == s[p + 1..];
  }

  /** The scanning loop. */
  method ScanLoop(html: Text) returns (sb: Buffer)
    ensures fresh(sb) && sb.Valid() && (sb.buf != null ==> fresh(sb.buf))
    ensures sb.Contents() == Scan(html)
  {
    hide Encode, Substitute, Reference, MarkupAt, Scan;
    sb := new Buffer();
    var p := 0;
    assert html[0..] == html && [] + Scan(html) == Scan(html);
    while p < |html|
      invariant p <= |html| && fresh(sb) && sb.Valid() && (sb.buf != null ==> fresh(sb.buf))
      invariant sb.Contents() + Scan(html[p..]) == Scan(html)
      decreases |html| - p
    {
      p := ScanStep(html, p, sb);
    }
    ScanEnd(html, sb.Contents());
  }

  lemma ScanEmpty()
    ensures Scan([]) == []
  {
  }

  lemma ScanEnd(html: Text, done: Text)
    requires done + Scan(html[|html|..]) == Scan(html)
    ensures done == Scan(html)
  {
    hide Scan;
    ScanEmpty();
    assert html[|html|..] == [];
    assert done + [] == done;
  }

  /** One turn of the loop. */
  method ScanStep(html: Text, p: nat, sb: Buffer) returns (p': nat)
    requires p < |html| && sb.Valid()
    requires sb.Contents() + Scan(html[p..]) == Scan(html)
    modifies sb, sb.buf
    ensures p < p' <= |html| && sb.Valid()
    ensures sb.buf == old(sb.buf) || fresh(sb.buf)
    ensures sb.Contents() + Scan(html[p'..]) == Scan(html)
  {
    hide Encode, Substitute, Reference, MarkupAt, Scan;
    ghost var done := sb.Contents();
    if html[p] == LT {
      var m := ReadMarkup(html[p..]);
      ScanMarkupAt(html, p, m);
      p' := p + m.len;
      if m.isBreak {
        sb.Put(NL);
        Assoc(done, [NL], Scan(html[p'..]));
      } else {
        assert [] + Scan(html[p'..]) == Scan(html[p'..]);
      }
      return;
    }
    if html[p] == AMP {
      var r := DecodeEntity(html[p + 1..]);
      if r.consumed > 1 {
        ScanReferenceAt(html, p, r);
        sb.PutCp(r.cp);
        p' := p + r.consumed;
        Assoc(done, Encode(Substitute(r.cp)), Scan(html[p'..]));
        return;
      }
    }
    ScanByteAt(html, p);
    sb.Put(html[p]);
    p' := p + 1;
    Assoc(done, [html[p]], Scan(html[p'..]));
  }
}
