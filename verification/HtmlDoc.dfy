/** What the scanner makes of documents: written markup, its meaning, and markup that leaves no trace. */
module HtmlDoc {
  import opened Bytes
  import opened Utf8
  import opened Sanitize
  import opened StrBuf
  import opened Entity
  import opened HtmlScan

  datatype Node =
    | Plain(text: Text)
    | CharRef(body: Text)
    | Tag(inner: Text)
    | Comment(body: Text)
    | Hidden(style: bool, open: Text, attrs: Text, content: Text, close: Text, tail: Text)

  predicate Proper(n: Node) {
    match n
    case Plain(text) => LT !in text && AMP !in text
    case CharRef(body) => SEMI !in body && Reference(body + [SEMI]).consumed > 1
    case Tag(inner) =>
      GT !in inner && !(COMMENT_OPEN <= [LT] + inner + [GT]) && !Opens(inner, SCRIPT) && !Opens(inner, STYLE)
    case Comment(body) => FindText(body, COMMENT_CLOSE) < 0
    case Hidden(style, open, attrs, content, close, tail) =>
      && Spells(if style then STYLE else SCRIPT, Fold(open)) && Spells(if style then STYLE else SCRIPT, Fold(close))
      && GT !in attrs && (attrs == [] || !IsAlnum(attrs[0]))
      && FindText(Fold(content), CloseMark(style)) < 0
      && GT !in tail
  }

  function CloseMark(style: bool): Text { if style then STYLE_CLOSE else SCRIPT_CLOSE }

  function Write(n: Node): Text {
    match n
    case Plain(text) => text
    case CharRef(body) => [AMP] + (body + [SEMI])
    case Tag(inner) => [LT] + inner + [GT]
    case Comment(body) => COMMENT_OPEN + body + COMMENT_CLOSE
    case Hidden(_, open, attrs, content, close, tail) =>
      WriteOpen(open + attrs) + content + WriteOpen([SLASH] + close + tail)
  }

  function WriteOpen(inner: Text): Text { [LT] + inner + [GT] }

  /** What a node contributes to the scanned text. */
  function Meaning(n: Node): Text {
    match n
    case Plain(text) => text
    case CharRef(body) => Encode(Substitute(Reference(body + [SEMI]).cp))
    case Tag(inner) => if TagIsBreak(TagName(inner)) then [NL] else []
    case Comment(_) => []
    case Hidden(_, _, _, _, _, _) => []
  }

  // ----- one node at a time -------------------------------------------------

  lemma {:induction false} ScanPlain(text: Text, rest: Text)
    requires LT !in text && AMP !in text
    ensures Scan(text + rest) == text + Scan(rest)
    decreases |text|
  {
    if text == [] {
      assert text + rest == rest;
    } else {
      hide Scan;
      var s := text + rest;
      assert s[0] == text[0] && s[1..] == text[1..] + rest;
      ScanByte(s);
      ScanPlain(text[1..], rest);
      Assoc([text[0]], text[1..], Scan(rest));
      assert [text[0]] + text[1..] == text;
    }
  }

  lemma ScanByte(s: Text)
    requires s != [] && s[0] != LT && s[0] != AMP
    ensures Scan(s) == [s[0]] + Scan(s[1..])
  {
  }

  lemma ScanMarkup(s: Text, m: Markup, rest: Text)
    requires s != [] && s[0] == LT && m == MarkupAt(s) && rest == s[m.len..]
    ensures Scan(s) == (if m.isBreak then [NL] else []) + Scan(rest)
  {
    hide MarkupAt;
  }

  /** Only the bytes up to the ';' decide a reference. */
  lemma ReferencePrefix(body: Text, rest: Text)
    requires SEMI !in body
    ensures Reference(body + [SEMI] + rest) == Reference(body + [SEMI])
  {
    hide Lookup, Numeric, Find;
    var k := |body|;
    var s, t := body + [SEMI] + rest, body + [SEMI];
    assert s[..k] == t[..k] == body;
    FindAt(s, SEMI, k);
    FindAt(t, SEMI, k);
    assert s[0] == t[0];
    if k >= 2 {
      assert s[1] == t[1] && s[2..k] == t[2..k] && s[1..k] == t[1..k];
    } else if k == 1 {
      assert s[1] == t[1] == SEMI && s[1..k] == t[1..k];
    }
  }

  lemma ScanReference(body: Text, rest: Text)
    requires Proper(CharRef(body))
    ensures Scan(Write(CharRef(body)) + rest) == Meaning(CharRef(body)) + Scan(rest)
  {
    hide Reference, Encode, Substitute;
    ReferencePrefix(body, rest);
    ReferenceLength(body);
    var s := [AMP] + (body + [SEMI]) + rest;
    assert s[1..] == body + [SEMI] + rest;
    assert s[|body| + 2..] == rest;
  }

  lemma ReferenceLength(body: Text)
    requires SEMI !in body && Reference(body + [SEMI]).consumed > 1
    ensures Reference(body + [SEMI]).consumed == |body| + 2
  {
    hide Lookup, Find, Num;
    FindAt(body + [SEMI], SEMI, |body|);
  }

  lemma WriteOpenEnd(inner: Text, rest: Text)
    requires GT !in inner
    ensures Find(WriteOpen(inner) + rest, GT) == |inner| + 1
    ensures (WriteOpen(inner) + rest)[1..|inner| + 1] == inner
    ensures (WriteOpen(inner) + rest)[|inner| + 2..] == rest
    ensures (WriteOpen(inner) + rest)[|inner| + 1..] == [GT] + rest
  {
    var s := WriteOpen(inner) + rest;
    assert s[..|inner| + 1] == [LT] + inner;
    FindAt(s, GT, |inner| + 1);
  }

  lemma CommentPrefix(inner: Text, rest: Text)
    requires GT !in inner
    ensures COMMENT_OPEN <= WriteOpen(inner) + rest <==> COMMENT_OPEN <= WriteOpen(inner)
  {
    var s, w := WriteOpen(inner) + rest, WriteOpen(inner);
    assert s[..|w|] == w;
    if |w| < 4 {
      assert s[|w| - 1] == w[|w| - 1] == GT;
      assert COMMENT_OPEN[|w| - 1] != GT;
    } else {
      assert s[..4] == w[..4];
    }
  }

  lemma ScanTag(inner: Text, rest: Text)
    requires Proper(Tag(inner))
    ensures Scan(Write(Tag(inner)) + rest) == Meaning(Tag(inner)) + Scan(rest)
  {
    hide TagIsBreak, TagName, Opens, Scan, Find;
    var s := WriteOpen(inner) + rest;
    WriteOpenEnd(inner, rest);
    CommentPrefix(inner, rest);
    ScanMarkup(s, Markup(|inner| + 2, TagIsBreak(TagName(inner))), rest);
  }

  /** "-->" does not overlap itself: it is first found where it was written. */
  lemma CommentCloseAt(body: Text, rest: Text)
    requires FindText(body, COMMENT_CLOSE) < 0
    ensures FindText(body + COMMENT_CLOSE + rest, COMMENT_CLOSE) == |body|
  {
    var s := body + COMMENT_CLOSE + rest;
    var n := |body|;
    assert s[n..] == COMMENT_CLOSE + rest;
    assert OccursAt(s, COMMENT_CLOSE, n);
    forall i: nat | i < n
      ensures !OccursAt(s, COMMENT_CLOSE, i)
    {
      assert !OccursAt(body, COMMENT_CLOSE, i);
      assert s[i..][2] == s[i + 2];
      if i + 3 <= n {
        InnerSlice([], body, COMMENT_CLOSE + rest, i, 3);
        assert s == [] + body + (COMMENT_CLOSE + rest);
      } else {
        assert s[i + 2] == COMMENT_CLOSE[i + 2 - n] != COMMENT_CLOSE[2];
      }
    }
  }

  lemma ScanComment(body: Text, rest: Text)
    requires Proper(Comment(body))
    ensures Scan(Write(Comment(body)) + rest) == Scan(rest)
  {
    hide Scan, FindText, Find, Opens, TagIsBreak, TagName;
    var s := Write(Comment(body)) + rest;
    CommentCloseAt(body, rest);
    assert s[..4] == COMMENT_OPEN;
    assert s[4..] == body + COMMENT_CLOSE + rest;
    assert s[4 + |body| + 3..] == rest;
    ScanMarkup(s, Markup(4 + |body| + 3, false), rest);
  }

  /** '<' starts a closing mark and occurs nowhere else in it. */
  lemma MarkBytes(mark: Text, j: nat)
    requires mark == SCRIPT_CLOSE || mark == STYLE_CLOSE
    ensures |mark| > 0 && mark[0] == LT
    ensures 0 < j < |mark| ==> mark[j] != LT
  {
  }

  lemma InnerSlice(a: Text, b: Text, c: Text, i: nat, m: nat)
    requires |a| <= i && i - |a| + m <= |b|
    ensures (a + b + c)[i..][..m] == b[i - |a|..][..m]
  {
    var x, y := (a + b + c)[i..], b[i - |a|..];
    forall j | 0 <= j < m
      ensures x[j] == y[j]
    {
      assert x[j] == (a + b + c)[i + j];
      assert y[j] == b[i - |a| + j];
    }
  }

  /** A closing mark is first found where it was written, when the content holds none. */
  lemma CloseMarkAt(content: Text, mark: Text, rest: Text)
    requires FindText(content, mark) < 0 && (mark == SCRIPT_CLOSE || mark == STYLE_CLOSE)
    requires mark <= rest
    ensures FindText([GT] + content + rest, mark) == 1 + |content|
  {
    var s := [GT] + content + rest;
    var n := 1 + |content|;
    assert s[n..] == rest;
    assert OccursAt(s, mark, n);
    forall i: nat | i < n
      ensures !OccursAt(s, mark, i)
    {
      assert s[i..][0] == s[i];
      MarkBytes(mark, n - i);
      if i == 0 {
        assert s[0] == GT;
      } else if i + |mark| <= n {
        assert !OccursAt(content, mark, i - 1);
        InnerSlice([GT], content, rest, i, |mark|);
      } else {
        assert s[i..][n - i] == s[n] == rest[0] == mark[0];
        assert mark[n - i] != LT;
      }
    }
  }

  lemma FoldOpen(open: Text, attrs: Text, element: string)
    requires Spells(element, Fold(open)) && (attrs == [] || !IsAlnum(attrs[0]))
    requires element == SCRIPT || element == STYLE
    ensures TagName(open + attrs) == open && !IsClosing(open + attrs)
    ensures Opens(open + attrs, element)
  {
    LettersOnly(open, element);
    AlnumRun(open, attrs);
    assert (open + attrs)[..|open|] == open;
    assert (open + attrs)[0] == open[0];
  }

  lemma LettersOnly(open: Text, element: string)
    requires Spells(element, Fold(open)) && (element == SCRIPT || element == STYLE)
    ensures open != [] && forall i | 0 <= i < |open| :: IsAlnum(open[i])
  {
    forall i | 0 <= i < |open|
      ensures IsAlnum(open[i])
    {
      assert Fold(open)[i] == element[i] as int;
      assert 97 <= element[i] as int <= 122;
    }
  }

  lemma {:induction false} AlnumRun(a: Text, rest: Text)
    requires (forall i | 0 <= i < |a| :: IsAlnum(a[i])) && (rest == [] || !IsAlnum(rest[0]))
    ensures AlnumLen(a + rest) == |a|
  {
    if a == [] {
      assert a + rest == rest;
    } else {
      assert (a + rest)[1..] == a[1..] + rest;
      AlnumRun(a[1..], rest);
    }
  }

  /** No name beginning like "script" or "style" is a break: among those, only "section" starts with an s. */
  lemma NotBreak(name: Text)
    requires |name| >= 2 && Lower(name[0]) == 115 && (Lower(name[1]) == 99 || Lower(name[1]) == 116)
    ensures !TagIsBreak(name)
  {
    assert Fold(name)[0] == 115 && Fold(name)[1] != 101;
  }

  lemma CloseTag(style: bool, close: Text, tail: Text)
    requires Spells(if style then STYLE else SCRIPT, Fold(close)) && GT !in tail
    ensures Proper(Tag([SLASH] + close + tail)) && Meaning(Tag([SLASH] + close + tail)) == []
  {
    hide TagIsBreak, Spells;
    var element := if style then STYLE else SCRIPT;
    var inner := [SLASH] + close + tail;
    LettersOnly(close, element);
    assert IsClosing(inner) && inner[1..] == close + tail;
    assert COMMENT_OPEN[1] != SLASH && ([LT] + inner + [GT])[1] == SLASH;
    CloseName(style, close, tail);
  }

  lemma CloseName(style: bool, close: Text, tail: Text)
    requires Spells(if style then STYLE else SCRIPT, Fold(close))
    ensures !TagIsBreak(TagName([SLASH] + close + tail))
  {
    var element := if style then STYLE else SCRIPT;
    LettersOnly(close, element);
    assert ([SLASH] + close + tail)[1..] == close + tail;
    AlnumPrefix(close, tail);
    var name := (close + tail)[..AlnumLen(close + tail)];
    assert Fold(close)[0] == element[0] as int && Fold(close)[1] == element[1] as int;
    assert name[0] == close[0] && name[1] == close[1];
    NotBreak(name);
  }

  lemma {:induction false} AlnumPrefix(a: Text, rest: Text)
    requires forall i | 0 <= i < |a| :: IsAlnum(a[i])
    ensures AlnumLen(a + rest) >= |a|
  {
    if a != [] {
      assert (a + rest)[1..] == a[1..] + rest;
      AlnumPrefix(a[1..], rest);
    }
  }

  lemma FoldedClose(style: bool, close: Text, tail: Text, rest: Text)
    requires Spells(if style then STYLE else SCRIPT, Fold(close))
    ensures CloseMark(style) <= Fold(WriteOpen([SLASH] + close + tail) + rest)
  {
    var w := WriteOpen([SLASH] + close + tail) + rest;
    var mark := CloseMark(style);
    forall i | 0 <= i < |mark|
      ensures i < |w| && Fold(w)[i] == mark[i]
    {
      if i >= 2 {
        assert w[i] == close[i - 2] && Fold(close)[i - 2] == (if style then STYLE else SCRIPT)[i - 2] as int;
      }
    }
  }

  /** Where a skipped element's content ends. */
  lemma SkipContent(inner: Text, content: Text, mark: Text, s: Text, rest: Text)
    requires mark == SCRIPT_CLOSE || mark == STYLE_CLOSE
    requires GT !in inner && FindText(Fold(content), mark) < 0 && mark <= Fold(rest)
    requires s == WriteOpen(inner) + (content + rest)
    ensures Find(s, GT) == |inner| + 1 && s[1..|inner| + 1] == inner
    ensures Skip(s, |inner| + 1, mark) == |inner| + 2 + |content|
    ensures s[|inner| + 2 + |content|..] == rest
  {
    hide Find, FindText;
    var end := |inner| + 1;
    WriteOpenEnd(inner, content + rest);
    assert s[end..] == [GT] + content + rest;
    FoldConcat([GT] + content, rest);
    FoldConcat([GT], content);
    assert Fold([GT]) == [GT];
    CloseMarkAt(Fold(content), mark, Fold(rest));
    assert s[end + 1..] == content + rest;
    assert s[end + 1..][|content|..] == rest;
  }

  lemma MarkupOfElement(s: Text, style: bool, end: nat)
    requires 0 < end < |s| && s[0] == LT && !(COMMENT_OPEN <= s) && Find(s, GT) == end
    requires Opens(s[1..end], if style then STYLE else SCRIPT)
    ensures MarkupAt(s) == Markup(Skip(s, end, CloseMark(style)), false)
  {
    OneElement(s[1..end]);
    hide Find, Skip, TagIsBreak, Opens, FindText;
  }

  lemma HiddenOpening(n: Node, s: Text, after: Text)
    requires n.Hidden? && Proper(n) && s == WriteOpen(n.open + n.attrs) + after
    ensures GT !in n.open + n.attrs && !(COMMENT_OPEN <= s)
    ensures Opens(n.open + n.attrs, if n.style then STYLE else SCRIPT)
  {
    hide FindText, AlnumLen, TagIsBreak, Spells, TagName, Opens;
    var element := if n.style then STYLE else SCRIPT;
    LettersOnly(n.open, element);
    FoldOpen(n.open, n.attrs, element);
    assert s[1] == n.open[0];
    assert COMMENT_OPEN[1] == 33;
  }

  /** A skipped element: the scan resumes at its closing tag. */
  lemma ScanHiddenContent(n: Node, s: Text, rest: Text)
    requires n.Hidden? && Proper(n)
    requires s == WriteOpen(n.open + n.attrs) + (n.content + rest) && CloseMark(n.style) <= Fold(rest)
    ensures Scan(s) == Scan(rest)
  {
    hide Scan, Find, FindText, AlnumLen, TagIsBreak, Spells, TagName, Skip, Opens, MarkupAt, Fold;
    var inner := n.open + n.attrs;
    HiddenOpening(n, s, n.content + rest);
    SkipContent(inner, n.content, CloseMark(n.style), s, rest);
    MarkupOfElement(s, n.style, |inner| + 1);
    ScanMarkup(s, Markup(|inner| + 2 + |n.content|, false), rest);
    assert [] + Scan(rest) == Scan(rest);
  }

  lemma OneElement(inner: Text)
    ensures !(Opens(inner, SCRIPT) && Opens(inner, STYLE))
  {
  }

  lemma ScanHidden(n: Node, rest: Text)
    requires n.Hidden? && Proper(n)
    ensures Scan(Write(n) + rest) == Scan(rest)
  {
    hide Scan, TagIsBreak, Spells, Opens, TagName, Fold, FindText, CloseMark, Meaning;
    var closing := [SLASH] + n.close + n.tail;
    var after := WriteOpen(closing) + rest;
    FoldedClose(n.style, n.close, n.tail, rest);
    assert Write(n) + rest == WriteOpen(n.open + n.attrs) + (n.content + after);
    ScanHiddenContent(n, Write(n) + rest, after);
    CloseTag(n.style, n.close, n.tail);
    ScanTag(closing, rest);
    assert Write(Tag(closing)) == WriteOpen(closing);
    assert [] + Scan(rest) == Scan(rest);
  }

  // ----- documents ------------------------------------------------------------

  lemma ScanNode(n: Node, rest: Text)
    requires Proper(n)
    ensures Scan(Write(n) + rest) == Meaning(n) + Scan(rest)
  {
    hide Scan;
    match n
    case Plain(text) => ScanPlain(text, rest);
    case CharRef(body) => ScanReference(body, rest);
    case Tag(inner) => ScanTag(inner, rest);
    case Comment(body) =>
      ScanComment(body, rest);
      assert [] + Scan(rest) == Scan(rest);
    case Hidden(_, _, _, _, _, _) =>
      ScanHidden(n, rest);
      assert [] + Scan(rest) == Scan(rest);
  }

  predicate ProperDoc(doc: seq<Node>) {
    doc == [] || (Proper(doc[0]) && ProperDoc(doc[1..]))
  }

  function WriteDoc(doc: seq<Node>): Text {
    if doc == [] then [] else Write(doc[0]) + WriteDoc(doc[1..])
  }

  function MeaningDoc(doc: seq<Node>): Text {
    if doc == [] then [] else Meaning(doc[0]) + MeaningDoc(doc[1..])
  }

  /** Whatever text follows, a proper document is scanned to its meaning. */
  lemma {:induction false} ScanDoc(doc: seq<Node>, rest: Text)
    requires ProperDoc(doc)
    ensures Scan(WriteDoc(doc) + rest) == MeaningDoc(doc) + Scan(rest)
  {
    hide Scan, Proper, Write, Meaning;
    if doc == [] {
      assert [] + rest == rest && [] + Scan(rest) == Scan(rest);
    } else {
      Assoc(Write(doc[0]), WriteDoc(doc[1..]), rest);
      ScanNode(doc[0], WriteDoc(doc[1..]) + rest);
      ScanDoc(doc[1..], rest);
      Assoc(Meaning(doc[0]), MeaningDoc(doc[1..]), Scan(rest));
    }
  }

  /**
   * A node without meaning (a complete tag that is no break, a closed comment, a closed script or style
   * element) leaves no trace after any proper document, whatever follows it.
   */
  lemma NoTrace(doc: seq<Node>, n: Node, rest: Text)
    requires ProperDoc(doc) && Proper(n) && Meaning(n) == []
    ensures Scan(WriteDoc(doc) + (Write(n) + rest)) == Scan(WriteDoc(doc) + rest)
  {
    hide Scan, Proper, Write, Meaning, WriteDoc, MeaningDoc;
    ScanDoc(doc, Write(n) + rest);
    ScanDoc(doc, rest);
    ScanNode(n, rest);
    assert [] + Scan(rest) == Scan(rest);
  }
}
