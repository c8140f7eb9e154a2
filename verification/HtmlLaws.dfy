/** Single pieces of markup, in bytes: what the scanner makes of each, malformed ones included. */
module HtmlLaws {
  import opened Bytes
  import opened Utf8
  import opened StrBuf
  import opened Entity
  import opened HtmlScan
  import opened HtmlDoc

  // ----- names in any case -------------------------------------------------------

  /** `s` spells the lower-case name, each letter small or capital. */
  predicate AnyCase(name: string, s: Text) {
    |name| == |s| && forall i | 0 <= i < |s| :: SameLetter(name[i], s[i])
  }

  predicate SameLetter(letter: char, c: Char) {
    c == letter as int || ('a' <= letter <= 'z' && c == letter as int - 32)
  }

  /** No capitals in it. */
  predicate LowerCase(name: string) { forall i | 0 <= i < |name| :: !('A' <= name[i] <= 'Z') }

  lemma AnyCaseFold(name: string, s: Text)
    requires LowerCase(name)
    ensures AnyCase(name, s) <==> Spells(name, Fold(s))
  {
    if |name| == |s| {
      forall i | 0 <= i < |s|
        ensures SameLetter(name[i], s[i]) <==> name[i] as int == Fold(s)[i]
      {
      }
    }
  }

  /** The elements that break a line. */
  predicate BreakName(s: Text) {
    || AnyCase("br", s) || AnyCase("p", s) || AnyCase("div", s) || AnyCase("li", s) || AnyCase("tr", s)
    || AnyCase("ul", s) || AnyCase("ol", s) || AnyCase("h1", s) || AnyCase("h2", s) || AnyCase("h3", s)
    || AnyCase("h4", s) || AnyCase("h5", s) || AnyCase("h6", s) || AnyCase("hr", s) || AnyCase("blockquote", s)
    || AnyCase("pre", s) || AnyCase("table", s) || AnyCase("section", s) || AnyCase("article", s)
    || AnyCase("header", s) || AnyCase("footer", s) || AnyCase("figure", s)
  }

  lemma BreakNames(s: Text)
    ensures TagIsBreak(s) <==> BreakName(s)
  {
    hide AnyCase, Spells, Fold, LowerCase;
    Both("br", s); Both("p", s); Both("div", s); Both("li", s); Both("tr", s); Both("ul", s); Both("ol", s);
    Both("h1", s); Both("h2", s); Both("h3", s); Both("h4", s); Both("h5", s); Both("h6", s); Both("hr", s);
    Both("blockquote", s); Both("pre", s); Both("table", s); Both("section", s); Both("article", s);
    Both("header", s); Both("footer", s); Both("figure", s);
  }

  lemma Both(name: string, s: Text)
    requires forall i | 0 <= i < |name| :: !('A' <= name[i] <= 'Z')
    ensures AnyCase(name, s) <==> Spells(name, Fold(s))
  {
    AnyCaseFold(name, s);
  }

  predicate LetterOrDigit(c: Char) { 48 <= c <= 57 || 65 <= c <= 90 || 97 <= c <= 122 }

  /** The inside of a tag: a name, perhaps after a slash, then whatever cannot be part of the name. */
  predicate TagInside(closing: bool, name: Text, attrs: Text) {
    && (forall i | 0 <= i < |name| :: LetterOrDigit(name[i]))
    && (attrs == [] || !LetterOrDigit(attrs[0])) && 62 !in attrs
    && (!closing && name == [] ==> attrs == [] || (attrs[0] != 47 && !([33, 45, 45] <= attrs)))
  }

  function Inside(closing: bool, name: Text, attrs: Text): Text {
    (if closing then [47] else []) + (name + attrs)
  }

  lemma InsideName(closing: bool, name: Text, attrs: Text)
    requires TagInside(closing, name, attrs)
    ensures var inner := Inside(closing, name, attrs);
            TagName(inner) == name && (IsClosing(inner) <==> closing) && GT !in inner
            && !(COMMENT_OPEN <= WriteOpen(inner))
  {
    var inner := Inside(closing, name, attrs);
    AlnumRun(name, attrs);
    assert (name + attrs)[..|name|] == name;
    if closing {
      assert inner[1..] == name + attrs;
    } else {
      assert inner == name + attrs;
      assert name != [] ==> inner[0] == name[0];
      assert name == [] && attrs != [] ==> inner[0] == attrs[0];
    }
    NoComment(inner);
  }

  lemma NoComment(inner: Text)
    requires 62 !in inner
    ensures COMMENT_OPEN <= WriteOpen(inner) <==> [33, 45, 45] <= inner
  {
    var w := WriteOpen(inner);
    assert forall i | 0 <= i < |inner| :: w[i + 1] == inner[i];
    assert w[|inner| + 1] == 62;
  }

  /** A tag is a newline if its name is one of those above, in any case, opening or closing; nothing otherwise. */
  lemma TagScans(closing: bool, name: Text, attrs: Text, rest: Text)
    requires TagInside(closing, name, attrs)
    requires closing || (!AnyCase("script", name) && !AnyCase("style", name))
    ensures Scan([60] + Inside(closing, name, attrs) + [62] + rest)
         == (if BreakName(name) then [10] else []) + Scan(rest)
  {
    hide Scan, BreakName, AnyCase, Spells, Fold, TagIsBreak, TagInside, TagName, Inside, IsClosing;
    var inner := Inside(closing, name, attrs);
    InsideName(closing, name, attrs);
    BreakNames(name);
    AnyCaseFold("script", name);
    AnyCaseFold("style", name);
    ScanTag(inner, rest);
  }

  // ----- malformed markup -------------------------------------------------------------

  /** A '<' with no '>' after it is dropped alone. */
  lemma LoneLess(t: Text)
    requires 62 !in t && !([33, 45, 45] <= t)
    ensures Scan([60] + t) == Scan(t)
  {
    hide Opens, TagIsBreak, FindText, Skip;
    var s := [60] + t;
    assert s[1..] == t;
    assert COMMENT_OPEN == [60] + [33, 45, 45];
    PrefixBehind(60, [33, 45, 45], t);
    assert GT !in s;
    ScanMarkup(s, Markup(1, false), t);
    assert [] + Scan(t) == Scan(t);
  }

  lemma PrefixBehind(c: Char, a: Text, b: Text)
    ensures [c] + a <= [c] + b <==> a <= b
  {
    var x, y := [c] + a, [c] + b;
    if x <= y {
      forall i | 0 <= i < |a|
        ensures i < |b| && a[i] == b[i]
      {
        assert x[i + 1] == y[i + 1];
      }
    }
  }

  predicate ArrowAt(t: Text, i: nat) { i + 3 <= |t| && t[i] == 45 && t[i + 1] == 45 && t[i + 2] == 62 }

  lemma NoArrow(t: Text)
    requires forall i: nat :: !ArrowAt(t, i)
    ensures FindText(t, COMMENT_CLOSE) < 0
  {
    forall i: nat {:trigger OccursAt(t, COMMENT_CLOSE, i)}
      ensures !OccursAt(t, COMMENT_CLOSE, i)
    {
      assert !ArrowAt(t, i);
      assert i + 3 <= |t| ==> t[i..][0] == t[i] && t[i..][1] == t[i + 1] && t[i..][2] == t[i + 2];
    }
  }

  /** A comment that is not closed swallows the rest of the document. */
  lemma OpenComment(t: Text)
    requires forall i: nat :: !ArrowAt(t, i)
    ensures Scan([60, 33, 45, 45] + t) == []
  {
    hide Opens, TagIsBreak, Skip, FindText, Find, Scan;
    var s := [60, 33, 45, 45] + t;
    assert s[4..] == t && s[|s|..] == [];
    NoArrow(t);
    ScanMarkup(s, Markup(|s|, false), []);
    ScanEmpty();
  }

  /** A closed one nothing. */
  lemma ClosedComment(body: Text, rest: Text)
    requires forall i: nat :: !ArrowAt(body, i)
    ensures Scan([60, 33, 45, 45] + body + [45, 45, 62] + rest) == Scan(rest)
  {
    hide Scan, FindText;
    NoArrow(body);
    ScanComment(body, rest);
  }

  predicate SpelledAt(mark: string, s: Text, i: nat) { i + |mark| <= |s| && AnyCase(mark, s[i..i + |mark|]) }

  /** `mark` occurs nowhere in the text, in any case. */
  ghost predicate Absent(mark: string, s: Text) { forall i: nat :: !SpelledAt(mark, s, i) }

  lemma AbsentMark(mark: string, m: Text, s: Text)
    requires LowerCase(mark) && Spells(mark, m) && Absent(mark, s)
    ensures FindText(Fold(s), m) < 0
  {
    hide LowerCase;
    var f := Fold(s);
    forall i: nat {:trigger OccursAt(f, m, i)}
      ensures !OccursAt(f, m, i)
    {
      assert !SpelledAt(mark, s, i);
      if i + |m| <= |s| {
        var piece := s[i..i + |m|];
        AnyCaseFold(mark, piece);
        assert m <= f[i..] ==> Fold(piece) == m by {
          assert forall j | 0 <= j < |m| :: Fold(piece)[j] == f[i..][j];
        }
      }
    }
  }

  /** The closing marks, spelled out. */
  lemma MarksSpelled()
    ensures Spells("</script", SCRIPT_CLOSE) && Spells("</style", STYLE_CLOSE)
    ensures LowerCase("</script") && LowerCase("</style") && LowerCase("script") && LowerCase("style")
  {
  }

  /** A script or style element that is never closed: only its opening tag is dropped. */
  lemma UnclosedElement(style: bool, name: Text, attrs: Text, rest: Text)
    requires AnyCase(if style then "style" else "script", name)
    requires (attrs == [] || !LetterOrDigit(attrs[0])) && 62 !in attrs
    requires Absent(if style then "</style" else "</script", rest)
    ensures Scan([60] + (name + attrs) + [62] + rest) == Scan(rest)
  {
    hide Scan, Spells, AnyCase, Absent, Fold, TagName, AlnumLen, MarkupAt, Opens, FindText;
    MarksSpelled();
    var inner := name + attrs;
    var s := WriteOpen(inner) + rest;
    OpeningTag(style, name, attrs, rest);
    WriteOpenEnd(inner, rest);
    MarkupOfElement(s, style, |inner| + 1);
    assert Skip(s, |inner| + 1, CloseMark(style)) == |inner| + 2 by {
      assert s[|inner| + 1..] == [62] + rest;
      AbsentAfter(style, rest);
    }
    ScanMarkup(s, Markup(|inner| + 2, false), rest);
    assert [] + Scan(rest) == Scan(rest);
  }

  lemma OpeningTag(style: bool, name: Text, attrs: Text, rest: Text)
    requires AnyCase(if style then "style" else "script", name)
    requires (attrs == [] || !LetterOrDigit(attrs[0])) && 62 !in attrs
    ensures GT !in name + attrs && !(COMMENT_OPEN <= WriteOpen(name + attrs) + rest)
    ensures Opens(name + attrs, if style then STYLE else SCRIPT)
  {
    hide AnyCase, Spells, TagName, Opens, AlnumLen, IsClosing;
    var element := if style then STYLE else SCRIPT;
    MarksSpelled();
    AnyCaseFold(element, name);
    LettersOnly(name, element);
    FoldOpen(name, attrs, element);
    var s := WriteOpen(name + attrs) + rest;
    assert s[1] == name[0] && COMMENT_OPEN[1] == 33;
    assert 62 !in name;
  }

  lemma AbsentAfter(style: bool, rest: Text)
    requires Absent(if style then "</style" else "</script", rest)
    ensures FindText(Fold([62] + rest), CloseMark(style)) < 0
  {
    hide FindText, AnyCase, Spells, Fold;
    MarksSpelled();
    var mark := if style then "</style" else "</script";
    var t := [62] + rest;
    forall i: nat
      ensures !SpelledAt(mark, t, i)
    {
      if i + |mark| <= |t| {
        if i == 0 {
          FirstLetter(mark, t[0..|mark|]);
        } else {
          assert t[i..i + |mark|] == rest[i - 1..i - 1 + |mark|];
          assert !SpelledAt(mark, rest, i - 1);
        }
      }
    }
    AbsentMark(mark, CloseMark(style), t);
  }

  lemma FirstLetter(mark: string, s: Text)
    requires mark != "" && mark[0] == '<' && |s| == |mark| && s[0] != 60
    ensures !AnyCase(mark, s)
  {
    assert !SameLetter(mark[0], s[0]);
  }

  /** A closed one is dropped with everything in it. */
  lemma ClosedElement(style: bool, open: Text, attrs: Text, content: Text, close: Text, tail: Text, rest: Text)
    requires AnyCase(if style then "style" else "script", open) && AnyCase(if style then "style" else "script", close)
    requires (attrs == [] || !LetterOrDigit(attrs[0])) && 62 !in attrs && 62 !in tail
    requires Absent(if style then "</style" else "</script", content)
    ensures Scan(([60] + (open + attrs) + [62]) + content + ([60] + ([47] + close + tail) + [62]) + rest) == Scan(rest)
  {
    hide Scan, AnyCase, Spells, Absent, Fold, FindText;
    MarksSpelled();
    var n := Hidden(style, open, attrs, content, close, tail);
    AnyCaseFold(if style then STYLE else SCRIPT, open);
    AnyCaseFold(if style then STYLE else SCRIPT, close);
    AbsentMark(if style then "</style" else "</script", CloseMark(style), content);
    ScanHidden(n, rest);
  }

  // ----- ampersands -----------------------------------------------------------------------

  /** An '&' that starts no reference stays, and the scan goes on right after it. */
  lemma ScanAmpersand(s: Text)
    requires Reference(s) == Ref(1, 38)
    ensures Scan([38] + s) == [38] + Scan(s)
  {
    hide Reference, MarkupAt;
    assert ([38] + s)[1..] == s;
  }

  /** One that does is replaced by its character. */
  lemma ScanOneReference(s: Text)
    requires Reference(s).consumed > 1
    ensures Scan([38] + s) == Encode(Substitute(Reference(s).cp)) + Scan(s[Reference(s).consumed - 1..])
  {
    hide Reference, MarkupAt, Encode, Substitute;
    assert ([38] + s)[1..] == s;
    assert ([38] + s)[Reference(s).consumed..] == s[Reference(s).consumed - 1..];
  }
}
