/** html_to_text: scan, filter, normalize; and what its output is guaranteed to look like. */
module HtmlText {
  import opened Bytes
  import opened Utf8
  import opened Sanitize
  import opened StrBuf
  import opened Entity
  import opened HtmlScan
  import opened HtmlDoc
  import opened Normalize

  function PlainText(html: Text): Text { Normalized(Filter(Scan(html), true)) }

  method HtmlToText(html: Text) returns (text: Text)
    ensures text == PlainText(html)
  {
    hide Scan, Filter, Normalized;
    var sb := ScanLoop(html);
    if sb.buf == null {
      NothingCollected();
      return [];
    }
    var filtered := FinishFiltered(sb, true);
    text := NormalizeText(filtered);
  }

  lemma NothingCollected()
    ensures Normalized(Filter([], true)) == []
  {
  }

  /** The result is a fixed point of both later stages. */
  lemma PlainTextStable(html: Text)
    ensures Filter(PlainText(html), true) == PlainText(html) && Clean(PlainText(html), true)
    ensures Normalized(PlainText(html)) == PlainText(html)
  {
    hide Scan, Filter, Normalized, Clean;
    var t := Filter(Scan(html), true);
    FilterClean(Scan(html), true);
    NormalizedClean(t);
    CleanUnchanged(PlainText(html), true);
    NormalizedKeepsWords(t);
  }

  /** Its whitespace is tidy, and the words of the sanitized scan survive in order with their line breaks. */
  lemma PlainTextTidy(html: Text)
    ensures Tidy(PlainText(html))
    ensures Words(PlainText(html)) == Words(Filter(Scan(html), true))
  {
    hide Scan, Filter, Normalized, Words;
    NormalizedTidy(Filter(Scan(html), true));
    NormalizedKeepsWords(Filter(Scan(html), true));
  }

  /** Markup without meaning vanishes from the final text. */
  lemma MarkupVanishes(doc: seq<Node>, n: Node, rest: Text)
    requires ProperDoc(doc) && Proper(n) && Meaning(n) == []
    ensures PlainText(WriteDoc(doc) + (Write(n) + rest)) == PlainText(WriteDoc(doc) + rest)
  {
    hide Scan, Filter, Normalized, Proper, Write, Meaning;
    NoTrace(doc, n, rest);
  }

  // ----- no raw '<' reaches the output ----------------------------------------

  /** How many of the references the scanner decodes stand for '<'; those inside markup are not decoded. */
  function LessRefs(s: Text): nat
    decreases |s|
  {
    if s == [] then 0
    else if s[0] == LT then
      MarkupAdvances(s);
      LessRefs(s[MarkupAt(s).len..])
    else if s[0] == AMP && Reference(s[1..]).consumed > 1 then
      var r := Reference(s[1..]);
      (if r.cp == LT then 1 else 0) + LessRefs(s[r.consumed..])
    else LessRefs(s[1..])
  }

  lemma EncodeLess(cp: nat)
    ensures Occurrences(Encode(Substitute(cp)), LT) == if cp == LT then 1 else 0
  {
    var e := Encode(Substitute(cp));
    if Substitute(cp) >= 0x80 {
      assert forall c <- e :: c >= 0x80;
      NoOccurrences(e, LT);
    } else {
      OneOccurrence(e[0], LT);
    }
  }

  /** Each '<' in the scanned text was written as a reference. */
  lemma {:induction false} ScanLess(s: Text)
    ensures Occurrences(Scan(s), LT) == LessRefs(s)
    decreases |s|
  {
    hide Reference, Substitute, Encode, MarkupAt, Occurrences;
    NoOccurrences([], LT);
    if s != [] {
      if s[0] == LT {
        MarkupAdvances(s);
        var m := MarkupAt(s);
        ScanLess(s[m.len..]);
        OneOccurrence(NL, LT);
        OccurrencesConcat(if m.isBreak then [NL] else [], Scan(s[m.len..]), LT);
      } else if s[0] == AMP && Reference(s[1..]).consumed > 1 {
        var r := Reference(s[1..]);
        EncodeLess(r.cp);
        ScanLess(s[r.consumed..]);
        OccurrencesConcat(Encode(Substitute(r.cp)), Scan(s[r.consumed..]), LT);
      } else {
        OneOccurrence(s[0], LT);
        ScanLess(s[1..]);
        OccurrencesConcat([s[0]], Scan(s[1..]), LT);
      }
    }
  }

  /** The filter keeps every printable ASCII byte. */
  lemma {:induction false} FilterCount(s: Text, keepNewlines: bool, c: Char)
    requires SP < c < 0x7F
    ensures Occurrences(Filter(s, keepNewlines), c) == Occurrences(s, c)
    decreases |s|
  {
    hide Occurrences, Kept;
    if s != [] {
      var p, rest := s[..Len(s)], s[Len(s)..];
      KeptCount(s, keepNewlines, c);
      FilterCount(rest, keepNewlines, c);
      OccurrencesConcat(Kept(p, keepNewlines), Filter(rest, keepNewlines), c);
      OccurrencesConcat(p, rest, c);
      assert p + rest == s;
    }
  }

  lemma KeptCount(s: Text, keepNewlines: bool, c: Char)
    requires s != [] && SP < c < 0x7F
    ensures Occurrences(Kept(s[..Len(s)], keepNewlines), c) == Occurrences(s[..Len(s)], c)
  {
    hide Occurrences, Cp;
    var p := s[..Len(s)];
    var k := Kept(p, keepNewlines);
    NoOccurrences([], c);
    if p[0] < 0x80 {
      assert p == [p[0]];
      OneOccurrence(p[0], c);
      OneOccurrence(SP, c);
      OneOccurrence(NL, c);
    } else {
      assert c !in p by {
        assert forall i | 0 <= i < |p| :: p[i] >= 0x80;
      }
      NoOccurrences(p, c);
      assert k == p || k == [];
    }
  }

  /** So does the layout, which only drops and adds white bytes. */
  lemma {:induction false} RenderCount(s: Text, first: bool, c: Char)
    requires !IsWhite(c)
    ensures Occurrences(Render(Words(s), first), c) == Occurrences(s, c)
    decreases |s|
  {
    hide Gap, AfterGap, FirstWord, Rest, Newlines, Occurrences, Separator;
    Parts(s);
    OccurrencesConcat(Gap(s), AfterGap(s), c);
    NoOccurrences(Gap(s), c);
    if AfterGap(s) == [] {
      NoOccurrences([], c);
    } else {
      var ws := Words(s);
      RenderCount(Rest(s), false, c);
      assert ws[1..] == Words(Rest(s));
      OccurrencesConcat(FirstWord(s), Rest(s), c);
      SeparatorNewlines(ws[0].breaks, first);
      NoOccurrences(Separator(ws[0].breaks, first), c);
      RenderCons(ws, first);
      OccurrencesConcat(Separator(ws[0].breaks, first), ws[0].bytes + Render(ws[1..], false), c);
      OccurrencesConcat(ws[0].bytes, Render(ws[1..], false), c);
    }
  }

  /** The final text has exactly one '<' for each decoded reference that stands for one: none is markup. */
  lemma LessComesFromReferences(html: Text)
    ensures Occurrences(PlainText(html), LT) == LessRefs(html)
    ensures LT in PlainText(html) <==> LessRefs(html) > 0
  {
    hide Scan, Filter, Normalized, Words, Render, LessRefs, Occurrences;
    var t := Filter(Scan(html), true);
    ScanLess(html);
    FilterCount(Scan(html), true, LT);
    NormalizedIsLayout(t);
    RenderCount(t, true, LT);
    NoOccurrences(PlainText(html), LT);
  }

  lemma {:induction false} NoLessRefs(s: Text)
    requires forall i | 0 <= i < |s| && s[i] == AMP :: Reference(s[i + 1..]).cp != LT
    ensures LessRefs(s) == 0
    decreases |s|
  {
    hide Reference, MarkupAt;
    if s != [] {
      var k := 1;
      if s[0] == LT {
        MarkupAdvances(s);
        k := MarkupAt(s).len;
      } else if s[0] == AMP && Reference(s[1..]).consumed > 1 {
        k := Reference(s[1..]).consumed;
      }
      NoLessRefsTail(s, k);
      NoLessRefs(s[k..]);
    }
  }

  lemma NoLessRefsTail(s: Text, k: nat)
    requires k <= |s| && forall i | 0 <= i < |s| && s[i] == AMP :: Reference(s[i + 1..]).cp != LT
    ensures forall i | 0 <= i < |s[k..]| && s[k..][i] == AMP :: Reference(s[k..][i + 1..]).cp != LT
  {
    hide Reference;
    forall i | 0 <= i < |s[k..]| && s[k..][i] == AMP
      ensures Reference(s[k..][i + 1..]).cp != LT
    {
      assert s[k + i] == AMP && s[k..][i + 1..] == s[k + i + 1..];
    }
  }

  /** In particular there is none if no '&' of the document starts such a reference. */
  lemma NoRawLessOut(html: Text)
    requires forall i | 0 <= i < |html| && html[i] == AMP :: Reference(html[i + 1..]).cp != LT
    ensures LT !in PlainText(html)
  {
    hide PlainText, Reference;
    NoLessRefs(html);
    LessComesFromReferences(html);
  }

  // ----- escaping ---------------------------------------------------------------

  const AMP_BODY: Text := [97, 109, 112]
  const LT_BODY: Text := [108, 116]
  const GT_BODY: Text := [103, 116]

  /** Text written for HTML: the three markup bytes become named references. */
  function EscapeNode(c: Char): Node {
    if c == AMP then CharRef(AMP_BODY)
    else if c == LT then CharRef(LT_BODY)
    else if c == GT then CharRef(GT_BODY)
    else Plain([c])
  }

  function Escape(t: Text): seq<Node> {
    if t == [] then [] else [EscapeNode(t[0])] + Escape(t[1..])
  }

  lemma NamedBodies()
    ensures Reference(AMP_BODY + [SEMI]) == Ref(5, AMP)
    ensures Reference(LT_BODY + [SEMI]) == Ref(4, LT)
    ensures Reference(GT_BODY + [SEMI]) == Ref(4, GT)
  {
    hide Numeric, Find;
    NamedBody(AMP_BODY, 0);
    NamedBody(LT_BODY, 1);
    NamedBody(GT_BODY, 2);
  }

  lemma NamedBody(name: Text, k: nat)
    requires k < 3 && Spells(ENTITIES[k].0, name) && name[0] != HASH && SEMI !in name && |name| <= MAX_BODY
    ensures Reference(name + [SEMI]) == Ref(|name| + 2, ENTITIES[k].1)
  {
    hide Numeric, Find;
    FindAt(name + [SEMI], SEMI, |name|);
    assert (name + [SEMI])[..|name|] == name;
    assert Lookup(name, k) == ENTITIES[k].1;
    assert k > 0 ==> !Spells(ENTITIES[0].0, name);
    assert k > 1 ==> !Spells(ENTITIES[1].0, name);
    assert k > 0 ==> Lookup(name, 0) == Lookup(name, 1);
    assert k > 1 ==> Lookup(name, 1) == Lookup(name, 2);
  }

  lemma EscapedByte(c: Char)
    ensures Proper(EscapeNode(c)) && Meaning(EscapeNode(c)) == [c]
  {
    hide Reference;
    NamedBodies();
  }

  lemma {:induction false} EscapedMeaning(t: Text)
    ensures ProperDoc(Escape(t)) && MeaningDoc(Escape(t)) == t
    decreases |t|
  {
    hide Proper, Meaning, EscapeNode;
    if t != [] {
      EscapedByte(t[0]);
      EscapedMeaning(t[1..]);
      assert Escape(t)[1..] == Escape(t[1..]);
      assert [t[0]] + t[1..] == t;
    }
  }

  /** Escaping round trip: the scanner reads escaped text back as it was, so only filter and layout act on it. */
  lemma EscapeRoundTrip(t: Text)
    ensures Scan(WriteDoc(Escape(t))) == t
    ensures PlainText(WriteDoc(Escape(t))) == Normalized(Filter(t, true))
  {
    hide Scan, Proper, Meaning, WriteDoc, MeaningDoc, Filter, Normalized;
    EscapedMeaning(t);
    ScanDoc(Escape(t), []);
    ScanEmpty();
    assert WriteDoc(Escape(t)) + [] == WriteDoc(Escape(t));
    assert t + [] == t;
  }

  /** So any converted text, escaped and converted again, comes back unchanged. */
  lemma ConvertedTextSurvives(html: Text)
    ensures PlainText(WriteDoc(Escape(PlainText(html)))) == PlainText(html)
  {
    hide Scan, WriteDoc, Filter, Normalized, PlainText, Clean;
    EscapeRoundTrip(PlainText(html));
    PlainTextStable(html);
  }
}
