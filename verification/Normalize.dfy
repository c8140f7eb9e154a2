/** The whitespace normalizer: a state machine over bytes that computes a canonical layout of words. */
module Normalize {
  import opened Bytes
  import opened Utf8
  import opened Sanitize

  // ----- the state machine ---------------------------------------------

  /** Output so far, and the newlines seen since the last word. */
  datatype State = State(out: Text, newlines: nat)

  function StripBlanks(s: Text): Text {
    if s != [] && IsBlank(s[|s| - 1]) then StripBlanks(s[..|s| - 1]) else s
  }

  function Step(st: State, c: Char): State {
    if c == NL then
      State(StripBlanks(st.out) + if st.newlines < 2 then [NL] else [], st.newlines + 1)
    else if IsBlank(c) then
      var o := st.out;
      if o != [] && o[|o| - 1] != SP && o[|o| - 1] != NL then st.(out := o + [SP]) else st
    else State(st.out + [c], 0)
  }

  function Run(st: State, s: Text): State
    decreases |s|
  {
    if s == [] then st else Run(Step(st, s[0]), s[1..])
  }

  function TrimEnd(s: Text): Text {
    if s != [] && (s[|s| - 1] == NL || s[|s| - 1] == SP) then TrimEnd(s[..|s| - 1]) else s
  }

  function Normalized(s: Text): Text { TrimEnd(Run(State([], 0), s).out) }

  // ----- the layout it computes ------------------------------------------

  /** A word, and how many newlines (two at most) its leading gap asks for. */
  datatype Word = Word(breaks: nat, bytes: Text)

  function WhiteLen(s: Text): (n: nat)
    ensures n <= |s|
  {
    if s != [] && IsWhite(s[0]) then 1 + WhiteLen(s[1..]) else 0
  }

  function WordLen(s: Text): (n: nat)
    ensures n <= |s|
  {
    if s != [] && !IsWhite(s[0]) then 1 + WordLen(s[1..]) else 0
  }

  lemma {:induction false} WhiteLenSplits(s: Text)
    ensures forall i | 0 <= i < WhiteLen(s) :: IsWhite(s[i])
    ensures WhiteLen(s) < |s| ==> !IsWhite(s[WhiteLen(s)])
  {
    if s != [] && IsWhite(s[0]) {
      WhiteLenSplits(s[1..]);
      assert forall i | 1 <= i < WhiteLen(s) :: s[i] == s[1..][i - 1];
    }
  }

  lemma {:induction false} WordLenSplits(s: Text)
    ensures forall i | 0 <= i < WordLen(s) :: !IsWhite(s[i])
    ensures WordLen(s) < |s| ==> IsWhite(s[WordLen(s)])
    ensures s != [] && !IsWhite(s[0]) ==> WordLen(s) > 0
  {
    if s != [] && !IsWhite(s[0]) {
      WordLenSplits(s[1..]);
      assert forall i | 1 <= i < WordLen(s) :: s[i] == s[1..][i - 1];
    }
  }

  function Newlines(s: Text): nat {
    if s == [] then 0 else (if s[0] == NL then 1 else 0) + Newlines(s[1..])
  }

  /** The gap a text starts with, the word after it, and what is left. */
  function Gap(s: Text): Text { s[..WhiteLen(s)] }

  function AfterGap(s: Text): Text { s[WhiteLen(s)..] }

  function FirstWord(s: Text): Text { AfterGap(s)[..WordLen(AfterGap(s))] }

  function Rest(s: Text): Text { AfterGap(s)[WordLen(AfterGap(s))..] }

  lemma Parts(s: Text)
    ensures s == Gap(s) + AfterGap(s) && AfterGap(s) == FirstWord(s) + Rest(s)
    ensures forall i | 0 <= i < |Gap(s)| :: IsWhite(Gap(s)[i])
    ensures forall i | 0 <= i < |FirstWord(s)| :: !IsWhite(FirstWord(s)[i])
    ensures Rest(s) != [] ==> IsWhite(Rest(s)[0])
    ensures AfterGap(s) != [] ==> FirstWord(s) != [] && |Rest(s)| < |s|
  {
    WhiteLenSplits(s);
    WordLenSplits(AfterGap(s));
  }

  /** The words of a text, each with the number of newlines before it, capped at two. */
  function Words(s: Text): seq<Word>
    decreases |s|
  {
    Parts(s);
    if AfterGap(s) == [] then []
    else [Word(Min(2, Newlines(Gap(s))), FirstWord(s))] + Words(Rest(s))
  }

  function Separator(breaks: nat, first: bool): Text {
    if breaks == 0 then (if first then [] else [SP])
    else if breaks == 1 then [NL]
    else [NL, NL]
  }

  /** Lay words out: newlines where asked for, otherwise one space between words. */
  function Render(ws: seq<Word>, first: bool): Text {
    if ws == [] then [] else Separator(ws[0].breaks, first) + ws[0].bytes + Render(ws[1..], false)
  }

  // ----- the machine computes the layout ---------------------------------

  lemma {:induction false} RunConcat(st: State, a: Text, b: Text)
    ensures Run(st, a + b) == Run(Run(st, a), b)
    decreases |a|
  {
    if a == [] {
      assert a + b == b;
    } else {
      assert (a + b)[1..] == a[1..] + b;
      RunConcat(Step(st, a[0]), a[1..], b);
    }
  }

  predicate Settled(base: Text) { base == [] || !IsWhite(base[|base| - 1]) }

  /** The machine's state inside a gap after `base`, having seen `k` newlines and perhaps a blank. */
  function InGap(base: Text, k: nat, blank: bool): State {
    State(base + if k == 0 then (if blank && base != [] then [SP] else []) else Separator(k, true), k)
  }

  lemma StripSettled(base: Text)
    requires Settled(base)
    ensures StripBlanks(base) == base && StripBlanks(base + [SP]) == base
  {
    assert (base + [SP])[..|base|] == base;
  }

  lemma GapStep(base: Text, k: nat, blank: bool, c: Char)
    requires Settled(base) && IsWhite(c)
    ensures Step(InGap(base, k, blank), c) == InGap(base, if c == NL then k + 1 else k, blank || c != NL)
  {
    var o := InGap(base, k, blank).out;
    if c == NL {
      StripGap(base, k, blank);
      if k == 1 {
        assert base + [NL] + [NL] == base + [NL, NL];
      } else if k >= 2 {
        assert o + [] == o;
      }
    }
  }

  lemma StripGap(base: Text, k: nat, blank: bool)
    requires Settled(base)
    ensures StripBlanks(InGap(base, k, blank).out) == if k == 0 then base else InGap(base, k, blank).out
  {
    StripSettled(base);
    if k > 0 {
      var o := InGap(base, k, blank).out;
      assert o[|o| - 1] == NL;
    } else {
      assert base + [] == base;
    }
  }

  lemma {:induction false} RunGap(base: Text, k: nat, blank: bool, g: Text)
    requires Settled(base) && forall i | 0 <= i < |g| :: IsWhite(g[i])
    ensures Newlines(g) <= |g|
    ensures Run(InGap(base, k, blank), g) == InGap(base, k + Newlines(g), blank || Newlines(g) < |g|)
    decreases |g|
  {
    if g != [] {
      GapStep(base, k, blank, g[0]);
      RunGap(base, if g[0] == NL then k + 1 else k, blank || g[0] != NL, g[1..]);
    }
  }

  lemma {:induction false} RunWord(st: State, w: Text)
    requires w != [] && forall i | 0 <= i < |w| :: !IsWhite(w[i])
    ensures Run(st, w) == State(st.out + w, 0)
    decreases |w|
  {
    var st1 := Step(st, w[0]);
    assert st1 == State(st.out + [w[0]], 0);
    if |w| == 1 {
      assert w == [w[0]] && w[1..] == [];
    } else {
      RunWord(st1, w[1..]);
      assert st.out + [w[0]] + w[1..] == st.out + w;
    }
  }

  lemma TrimOne(base: Text, c: Char)
    requires c == NL || c == SP
    ensures TrimEnd(base + [c]) == TrimEnd(base)
    ensures Settled(base) ==> TrimEnd(base) == base
  {
    assert (base + [c])[..|base|] == base;
  }

  lemma TrimGap(base: Text, k: nat, blank: bool)
    requires Settled(base)
    ensures TrimEnd(InGap(base, k, blank).out) == base
  {
    var o := InGap(base, k, blank).out;
    TrimOne(base, NL);
    TrimOne(base, SP);
    if k >= 2 {
      TrimOne(base + [NL], NL);
      assert o == base + [NL] + [NL];
    } else {
      assert o == base + [NL] || o == base + [SP] || o == base;
    }
  }

  /** What follows a word is a gap. */
  predicate GapFirst(base: Text, s: Text) { base == [] || s == [] || IsWhite(s[0]) }

  /** The machine's progress over one gap and one word. */
  lemma RunOneWord(base: Text, s: Text)
    requires Settled(base) && GapFirst(base, s) && AfterGap(s) != []
    ensures Run(State(base, 0), s)
         == Run(State(base + Separator(Min(2, Newlines(Gap(s))), base == []) + FirstWord(s), 0), Rest(s))
  {
    hide Run, Gap, AfterGap, FirstWord, Rest, Newlines, Step;
    Parts(s);
    var gap, word := Gap(s), FirstWord(s);
    var k := Newlines(gap);
    var mid := InGap(base, k, k < |gap|);
    assert Run(State(base, 0), s) == Run(mid, AfterGap(s)) by {
      RunGap(base, 0, false, gap);
      assert InGap(base, 0, false) == State(base, 0);
      RunConcat(State(base, 0), gap, AfterGap(s));
    }
    assert Run(mid, AfterGap(s)) == Run(State(mid.out + word, 0), Rest(s)) by {
      RunConcat(mid, word, Rest(s));
      RunWord(mid, word);
    }
    assert base != [] ==> gap != [] by {
      assert s == gap + AfterGap(s);
    }
  }

  lemma RunOnlyGap(base: Text, s: Text)
    requires Settled(base) && AfterGap(s) == []
    ensures TrimEnd(Run(State(base, 0), s).out) == base
  {
    hide Run, AfterGap, TrimEnd, Newlines, Step, Gap;
    Parts(s);
    var k := Newlines(s);
    assert Gap(s) == s;
    RunGap(base, 0, false, s);
    assert InGap(base, 0, false) == State(base, 0);
    TrimGap(base, k, k < |s|);
  }

  lemma {:induction false} RunIsRender(base: Text, s: Text)
    requires Settled(base) && GapFirst(base, s)
    ensures TrimEnd(Run(State(base, 0), s).out) == base + Render(Words(s), base == [])
    decreases |s|
  {
    hide Run, Gap, AfterGap, FirstWord, Rest, TrimEnd, Newlines, Separator;
    if AfterGap(s) == [] {
      RunOnlyGap(base, s);
      assert base + [] == base;
    } else {
      Parts(s);
      RunOneWord(base, s);
      var sep, word := Separator(Min(2, Newlines(Gap(s))), base == []), FirstWord(s);
      RunIsRender(base + sep + word, Rest(s));
      assert Words(s)[1..] == Words(Rest(s));
      assert base + sep + word + Render(Words(Rest(s)), false) == base + (sep + word + Render(Words(Rest(s)), false));
    }
  }

  /** The machine lays out exactly the words of its input, with their (capped) line breaks, and nothing else. */
  lemma NormalizedIsLayout(s: Text)
    ensures Normalized(s) == Render(Words(s), true)
  {
    RunIsRender([], s);
    assert [] + Render(Words(s), true) == Render(Words(s), true);
  }

  // ----- properties of every layout --------------------------------------

  /** A list of words as `Words` produces it. */
  predicate ProperWords(ws: seq<Word>) {
    ws == [] || (ProperWord(ws[0]) && ProperWords(ws[1..]))
  }

  predicate ProperWord(w: Word) {
    w.breaks <= 2 && w.bytes != [] && forall i | 0 <= i < |w.bytes| :: !IsWhite(w.bytes[i])
  }

  lemma {:induction false} WordsProper(s: Text)
    ensures ProperWords(Words(s))
    decreases |s|
  {
    hide Gap, AfterGap, FirstWord, Rest, Newlines;
    Parts(s);
    if AfterGap(s) != [] {
      WordsProper(Rest(s));
      assert Words(s)[1..] == Words(Rest(s));
    }
  }

  /**
   * `s`, read after the bytes `a` and `b` (0: none), has no tab, no blank at its start, no blank next to a
   * newline or another blank, no third newline in a row, and ends in a word.
   */
  predicate TidyAfter(a: int, b: int, s: Text)
    decreases |s|
  {
    if s == [] then !IsWhite(b)
    else
      && s[0] != TAB
      && (s[0] == SP ==> b != 0 && !IsWhite(b))
      && (s[0] == NL ==> !IsBlank(b) && !(a == NL && b == NL))
      && TidyAfter(b, s[0], s[1..])
  }

  predicate Tidy(s: Text) { TidyAfter(0, 0, s) }

  lemma {:induction false} TidyWord(a: int, b: int, w: Text, rest: Text)
    requires forall i | 0 <= i < |w| :: !IsWhite(w[i])
    requires forall x, y {:trigger TidyAfter(x, y, rest)} | y != 0 && !IsWhite(y) :: TidyAfter(x, y, rest)
    requires w != []
    ensures TidyAfter(a, b, w + rest)
    decreases |w|
  {
    assert (w + rest)[0] == w[0] && (w + rest)[1..] == w[1..] + rest;
    if |w| == 1 {
      assert w[1..] + rest == rest;
    } else {
      TidyWord(b, w[0], w[1..], rest);
    }
  }

  lemma {:induction false} TidySeparator(a: int, b: int, breaks: nat, first: bool, rest: Text)
    requires !IsWhite(b) && (first <==> b == 0)
    requires forall x, y {:trigger TidyAfter(x, y, rest)} :: TidyAfter(x, y, rest)
    ensures TidyAfter(a, b, Separator(breaks, first) + rest)
  {
    var sep := Separator(breaks, first);
    if |sep| == 0 {
      assert sep + rest == rest;
    } else if |sep| == 1 {
      assert (sep + rest)[1..] == rest;
    } else {
      assert (sep + rest)[1..] == [NL] + rest && ([NL] + rest)[1..] == rest;
    }
  }

  lemma {:induction false} RenderTidy(ws: seq<Word>, first: bool, a: int, b: int)
    requires ProperWords(ws) && !IsWhite(b) && (first <==> b == 0)
    ensures TidyAfter(a, b, Render(ws, first))
    decreases |ws|
  {
    hide Separator;
    if ws != [] {
      var w, rest := ws[0].bytes, Render(ws[1..], false);
      forall x, y {:trigger TidyAfter(x, y, rest)} | y != 0 && !IsWhite(y)
        ensures TidyAfter(x, y, rest)
      {
        RenderTidy(ws[1..], false, x, y);
      }
      forall x, y {:trigger TidyAfter(x, y, w + rest)}
        ensures TidyAfter(x, y, w + rest)
      {
        TidyWord(x, y, w, rest);
      }
      TidySeparator(a, b, ws[0].breaks, first, w + rest);
      Assoc(Separator(ws[0].breaks, first), w, rest);
    }
  }

  /** No tab, no leading or doubled blank, no blank at a line end, at most two newlines in a row, no trailing gap. */
  lemma NormalizedTidy(s: Text)
    ensures Tidy(Normalized(s))
  {
    hide Normalized, Words;
    NormalizedIsLayout(s);
    WordsProper(s);
    RenderTidy(Words(s), true, 0, 0);
  }

  lemma {:induction false} WhiteLenOf(g: Text, rest: Text)
    requires (forall i | 0 <= i < |g| :: IsWhite(g[i])) && (rest == [] || !IsWhite(rest[0]))
    ensures WhiteLen(g + rest) == |g|
  {
    if g == [] {
      assert g + rest == rest;
    } else {
      assert (g + rest)[1..] == g[1..] + rest;
      WhiteLenOf(g[1..], rest);
    }
  }

  lemma {:induction false} WordLenOf(w: Text, rest: Text)
    requires (forall i | 0 <= i < |w| :: !IsWhite(w[i])) && (rest == [] || IsWhite(rest[0]))
    ensures WordLen(w + rest) == |w|
  {
    if w == [] {
      assert w + rest == rest;
    } else {
      assert (w + rest)[1..] == w[1..] + rest;
      WordLenOf(w[1..], rest);
    }
  }

  lemma WordsCons(gap: Text, w: Text, rest: Text)
    requires forall i | 0 <= i < |gap| :: IsWhite(gap[i])
    requires w != [] && forall i | 0 <= i < |w| :: !IsWhite(w[i])
    requires rest == [] || IsWhite(rest[0])
    ensures Words(gap + (w + rest)) == [Word(Min(2, Newlines(gap)), w)] + Words(rest)
  {
    hide WhiteLen, WordLen, Newlines;
    var s := gap + (w + rest);
    WhiteLenOf(gap, w + rest);
    WordLenOf(w, rest);
    assert Gap(s) == gap && AfterGap(s) == w + rest;
    assert FirstWord(s) == w && Rest(s) == rest;
  }

  lemma SeparatorNewlines(breaks: nat, first: bool)
    requires breaks <= 2
    ensures Newlines(Separator(breaks, first)) == breaks
    ensures forall i | 0 <= i < |Separator(breaks, first)| :: IsWhite(Separator(breaks, first)[i])
  {
    assert [NL][1..] == [] && [SP][1..] == [] && [NL, NL][1..] == [NL];
    assert Newlines([NL]) == 1;
  }

  lemma RenderGapFirst(ws: seq<Word>)
    ensures Render(ws, false) == [] || IsWhite(Render(ws, false)[0])
  {
    if ws != [] {
      assert Separator(ws[0].breaks, false) != [];
    }
  }

  lemma RenderCons(ws: seq<Word>, first: bool)
    requires ws != []
    ensures Render(ws, first) == Separator(ws[0].breaks, first) + (ws[0].bytes + Render(ws[1..], false))
  {
    hide Separator;
    Assoc(Separator(ws[0].breaks, first), ws[0].bytes, Render(ws[1..], false));
  }

  lemma WordsEmpty()
    ensures Words([]) == []
  {
  }

  /** Reading a layout back gives the words it was made from. */
  lemma {:induction false} RenderRoundTrip(ws: seq<Word>, first: bool)
    requires ProperWords(ws)
    ensures Words(Render(ws, first)) == ws
    decreases |ws|
  {
    hide Words, Separator, Newlines, WhiteLen, WordLen;
    if ws == [] {
      WordsEmpty();
    } else {
      RenderRoundTrip(ws[1..], false);
      RenderGapFirst(ws[1..]);
      RenderCons(ws, first);
      SeparatorNewlines(ws[0].breaks, first);
      WordsCons(Separator(ws[0].breaks, first), ws[0].bytes, Render(ws[1..], false));
      assert [ws[0]] + ws[1..] == ws;
    }
  }

  /** The words survive in order, with their breaks, and normalizing again changes nothing. */
  lemma NormalizedKeepsWords(s: Text)
    ensures Words(Normalized(s)) == Words(s)
    ensures Normalized(Normalized(s)) == Normalized(s)
  {
    hide Normalized, Words, Render;
    NormalizedIsLayout(s);
    WordsProper(s);
    RenderRoundTrip(Words(s), true);
    NormalizedIsLayout(Normalized(s));
  }

  /** Leading newlines do stay: a text that opens with blank lines keeps up to two of them. */
  lemma LeadingNewlinesStay(w: Text, n: nat, gap: Text)
    requires w != [] && forall i | 0 <= i < |w| :: !IsWhite(w[i])
    requires (forall i | 0 <= i < |gap| :: IsWhite(gap[i])) && Newlines(gap) == n
    ensures Normalized(gap + w) == Separator(Min(2, n), true) + w
  {
    hide Normalized, Words, Newlines;
    NormalizedIsLayout(gap + w);
    assert w + [] == w;
    WordsCons(gap, w, []);
    WordsEmpty();
    var ws := [Word(Min(2, n), w)];
    assert Words(gap + w) == ws && ws[1..] == [];
    assert Render(ws, true) == Separator(Min(2, n), true) + w + [];
  }

  /**
   * What stays of a leading gap, for every text: of a text with a word exactly its newlines, two at most;
   * of a text without one nothing. So blank lines at the start are dropped only when there are none.
   */
  lemma LeadingGapExact(s: Text)
    ensures AfterGap(s) == [] ==> Normalized(s) == []
    ensures AfterGap(s) != [] ==> Gap(Normalized(s)) == Separator(Min(2, Newlines(Gap(s))), true)
    ensures Normalized(s) != [] ==> (Normalized(s)[0] == NL <==> Newlines(Gap(s)) > 0)
  {
    hide Normalized, Newlines, WhiteLen, Separator;
    NormalizedIsLayout(s);
    Parts(s);
    if AfterGap(s) != [] {
      var ws := Words(s);
      var sep, rest := Separator(ws[0].breaks, true), ws[0].bytes + Render(ws[1..], false);
      RenderCons(ws, true);
      SeparatorNewlines(ws[0].breaks, true);
      WhiteLenOf(sep, rest);
      assert Gap(sep + rest) == sep;
      SeparatorStart(ws[0].breaks, rest);
    }
  }

  lemma SeparatorStart(breaks: nat, rest: Text)
    requires rest != [] && !IsWhite(rest[0])
    ensures (Separator(breaks, true) + rest)[0] == NL <==> breaks > 0
  {
  }

  // ----- the layout, gap by gap -------------------------------------------

  predicate IsGap(g: Text) { forall i | 0 <= i < |g| :: g[i] == 9 || g[i] == 10 || g[i] == 32 }

  predicate IsLetter(c: Char) { c != 9 && c != 10 && c != 32 }

  /** What a gap of that many newlines becomes between two words. */
  function GapText(newlines: nat): Text {
    if newlines == 0 then [32] else if newlines == 1 then [10] else [10, 10]
  }

  lemma RunToWord(x: Text)
    requires x != [] && IsLetter(x[|x| - 1])
    ensures Run(State([], 0), x) == State(Normalized(x), 0) && Settled(Normalized(x)) && Normalized(x) != []
  {
    var n := |x| - 1;
    assert x == x[..n] + [x[n]];
    RunConcat(State([], 0), x[..n], [x[n]]);
    var st := Run(State([], 0), x[..n]);
    assert Run(st, [x[n]]) == Step(st, x[n]) by { assert [x[n]][1..] == []; }
    TrimOne(st.out + [x[n]], NL);
  }

  lemma WordsFront(gap: Text, y: Text)
    requires IsGap(gap) && (y == [] || IsLetter(y[0]))
    ensures y == [] ==> Words(gap + y) == [] && Normalized(y) == []
    ensures y != [] ==>
      && Words(gap + y) != [] && Words(gap + y)[0].breaks == Min(2, Newlines(gap))
      && Words(gap + y)[0].bytes + Render(Words(gap + y)[1..], false) == Normalized(y)
  {
    hide Words, WhiteLen, WordLen, Normalized, Render;
    if y == [] {
      NoWords(gap);
      assert gap + y == gap;
      NormalizedIsLayout([]);
      WordsEmpty();
      RenderNothing();
    } else {
      WordsFrontLetter(gap, y);
    }
  }

  lemma WordsFrontLetter(gap: Text, y: Text)
    requires IsGap(gap) && y != [] && IsLetter(y[0])
    ensures Words(gap + y) != [] && Words(gap + y)[0].breaks == Min(2, Newlines(gap))
    ensures Words(gap + y)[0].bytes + Render(Words(gap + y)[1..], false) == Normalized(y)
  {
    hide Words, Normalized, Render, Newlines;
    Parts(y);
    NoGap(y);
    var w, rest := FirstWord(y), Rest(y);
    assert y == w + rest;
    hide Gap, FirstWord, Rest, AfterGap;
    WordsCons(gap, w, rest);
    FrontLayout(w, rest);
  }

  /** The layout of a text that starts with a word. */
  lemma FrontLayout(w: Text, rest: Text)
    requires w != [] && forall i | 0 <= i < |w| :: !IsWhite(w[i])
    requires rest == [] || IsWhite(rest[0])
    ensures Normalized(w + rest) == w + Render(Words(rest), false)
  {
    hide Words, Normalized, Render, Newlines;
    WordsCons([], w, rest);
    assert [] + (w + rest) == w + rest;
    NormalizedIsLayout(w + rest);
    var ws := Words(w + rest);
    NoNewlines();
    assert ws[0] == Word(0, w) && ws[1..] == Words(rest);
    RenderCons(ws, true);
    assert Separator(0, true) + (w + Render(Words(rest), false)) == w + Render(Words(rest), false);
  }

  lemma NoNewlines()
    ensures Newlines([]) == 0
  {
  }

  lemma RenderNothing()
    ensures Render([], true) == [] && Render([], false) == []
  {
  }

  lemma NoWords(gap: Text)
    requires IsGap(gap)
    ensures Words(gap) == []
  {
    hide WhiteLen;
    WhiteLenOf(gap, []);
    assert gap + [] == gap;
  }

  lemma NoGap(y: Text)
    requires y != [] && IsLetter(y[0])
    ensures Gap(y) == [] && AfterGap(y) == y
  {
  }

  /** Between words a gap becomes one space, one newline or two, by its newlines; what is around it stays itself. */
  lemma NormalizedJoin(x: Text, gap: Text, y: Text)
    requires x != [] && IsLetter(x[|x| - 1]) && gap != [] && IsGap(gap) && y != [] && IsLetter(y[0])
    ensures Normalized(x + (gap + y)) == Normalized(x) + (GapText(Newlines(gap)) + Normalized(y))
  {
    hide Words, Run, Newlines, Render;
    WordsFront(gap, y);
    var o, ws := Normalized(x), Words(gap + y);
    RunPast(x, gap + y);
    assert Separator(Min(2, Newlines(gap)), false) == GapText(Newlines(gap));
    RenderCons(ws, false);
  }

  lemma RunPast(x: Text, t: Text)
    requires x != [] && IsLetter(x[|x| - 1]) && t != [] && !IsLetter(t[0])
    ensures Normalized(x + t) == Normalized(x) + Render(Words(t), false)
  {
    hide Words, Run, Render, TrimEnd, Settled;
    RunToWord(x);
    RunConcat(State([], 0), x, t);
    RunIsRender(Normalized(x), t);
  }

  /** A gap at the end is dropped, and one at the start keeps only its newlines, two at most. */
  lemma NormalizedEnds(gap: Text, x: Text)
    requires IsGap(gap) && x != []
    ensures IsLetter(x[|x| - 1]) ==> Normalized(x + gap) == Normalized(x)
    ensures IsLetter(x[0]) ==>
      Normalized(gap + x) == (if Newlines(gap) == 0 then [] else GapText(Newlines(gap))) + Normalized(x)
  {
    hide Words, Run, Newlines, Render, Normalized;
    if IsLetter(x[|x| - 1]) {
      if gap == [] {
        assert x + gap == x;
      } else {
        RunPast(x, gap);
        NoWords(gap);
        RenderNothing();
      }
    }
    if IsLetter(x[0]) {
      WordsFront(gap, x);
      NormalizedIsLayout(gap + x);
      RenderCons(Words(gap + x), true);
      assert Separator(Min(2, Newlines(gap)), true) == if Newlines(gap) == 0 then [] else GapText(Newlines(gap));
    }
  }

  /** A text without gaps is left alone. */
  lemma NormalizedWord(w: Text)
    requires w != [] && forall i | 0 <= i < |w| :: IsLetter(w[i])
    ensures Normalized(w) == w
  {
    hide Words, Render, Run;
    WordsCons([], w, []);
    WordsEmpty();
    assert [] + (w + []) == w;
    NormalizedIsLayout(w);
    RenderCons(Words(w), true);
    RenderNothing();
    assert Words(w)[1..] == [] && w + [] == w && [] + w == w;
  }

  // ----- the layout of clean text is clean --------------------------------

  lemma AsciiPiece(c: Char, t: Text)
    requires c < 0x80
    ensures Clean([c] + t, true) <==> CleanPiece([c], true) && Clean(t, true)
  {
    CleanCons([c], t, true);
  }

  lemma {:induction false} CleanAfterGap(g: Text, rest: Text)
    requires Clean(g + rest, true) && forall i | 0 <= i < |g| :: IsWhite(g[i])
    ensures Clean(rest, true)
    decreases |g|
  {
    if g == [] {
      assert g + rest == rest;
    } else {
      assert g + rest == [g[0]] + (g[1..] + rest);
      AsciiPiece(g[0], g[1..] + rest);
      CleanAfterGap(g[1..], rest);
    }
  }

  lemma CleanWordAndRest(w: Text, rest: Text)
    requires Clean(w + rest, true) && (rest == [] || IsWhite(rest[0]))
    ensures Clean(w, true) && Clean(rest, true)
  {
    hide Segments;
    SegmentsConcat(w, rest);
    CleanSegments(w + rest, true);
    CleanSegments(w, true);
    CleanSegments(rest, true);
    assert forall p <- Segments(w) :: p in Segments(w + rest);
    assert forall p <- Segments(rest) :: p in Segments(w + rest);
  }

  lemma CleanEmpty()
    ensures Clean([], true)
  {
  }

  predicate CleanWords(ws: seq<Word>) {
    ws == [] || (Clean(ws[0].bytes, true) && CleanWords(ws[1..]))
  }

  lemma {:induction false} WordsClean(s: Text)
    requires Clean(s, true)
    ensures CleanWords(Words(s))
    decreases |s|
  {
    hide Clean, Gap, AfterGap, FirstWord, Rest, Newlines;
    Parts(s);
    if AfterGap(s) != [] {
      CleanAfterGap(Gap(s), AfterGap(s));
      CleanWordAndRest(FirstWord(s), Rest(s));
      WordsClean(Rest(s));
      assert Words(s)[1..] == Words(Rest(s));
    }
  }

  lemma SeparatorClean(breaks: nat, first: bool)
    ensures Clean(Separator(breaks, first), true)
  {
    assert [NL, NL] == [NL] + [NL] && [NL] == [NL] + [] && [SP] == [SP] + [];
    AsciiPiece(NL, [NL]);
    AsciiPiece(NL, []);
    AsciiPiece(SP, []);
  }

  lemma {:induction false} RenderClean(ws: seq<Word>, first: bool)
    requires CleanWords(ws)
    ensures Clean(Render(ws, first), true)
    decreases |ws|
  {
    hide Clean, Separator;
    if ws == [] {
      CleanEmpty();
    } else {
      RenderClean(ws[1..], false);
      SeparatorClean(ws[0].breaks, first);
      CleanConcat(ws[0].bytes, Render(ws[1..], false), true);
      CleanConcat(Separator(ws[0].breaks, first), ws[0].bytes + Render(ws[1..], false), true);
      RenderCons(ws, first);
    }
  }

  /** Normalizing clean text gives clean text: the sanitizer has nothing left to do. */
  lemma NormalizedClean(s: Text)
    requires Clean(s, true)
    ensures Clean(Normalized(s), true)
  {
    hide Clean, Normalized, Words, Render;
    NormalizedIsLayout(s);
    WordsClean(s);
    RenderClean(Words(s), true);
  }

  // ----- the code ----------------------------------------------------------

  /** Drop trailing bytes while the last one is a blank (`newline` false) or a newline or space (`newline` true). */
  method StripLoop(out: array<Char>, o: nat, atEnd: bool) returns (o': nat)
    requires o <= out.Length
    ensures o' <= o
    ensures out[..o'] == if atEnd then TrimEnd(out[..o]) else StripBlanks(out[..o])
  {
    o' := o;
    while o' > 0 && (if atEnd then out[o' - 1] == NL || out[o' - 1] == SP else out[o' - 1] == SP || out[o' - 1] == TAB)
      invariant o' <= o
      invariant atEnd ==> TrimEnd(out[..o']) == TrimEnd(out[..o])
      invariant !atEnd ==> StripBlanks(out[..o']) == StripBlanks(out[..o])
    {
      assert out[..o'][..o' - 1] == out[..o' - 1];
      o' := o' - 1;
    }
  }

  lemma RunAt(st: State, s: Text, q: nat)
    requires q < |s|
    ensures Run(st, s[q..]) == Run(Step(st, s[q]), s[q + 1..])
  {
    assert s[q..][1..] == s[q + 1..];
  }

  /** One byte of the loop below. */
  method StepInPlace(out: array<Char>, o: nat, newlines: nat, c: Char) returns (o': nat, newlines': nat)
    requires o < out.Length
    modifies out
    ensures o' <= o + 1
    ensures State(out[..o'], newlines') == Step(State(old(out[..o]), newlines), c)
  {
    o', newlines' := o, newlines;
    if c == NL {
      o' := StripLoop(out, o, false);
      ghost var kept := out[..o'];
      if newlines < 2 {
        out[o'] := NL;
        o' := o' + 1;
        assert out[..o'] == kept + [NL];
      } else {
        assert kept + [] == kept;
      }
      newlines' := newlines + 1;
    } else if c == SP || c == TAB {
      if o > 0 && out[o - 1] != SP && out[o - 1] != NL {
        out[o] := SP;
        o' := o + 1;
      }
    } else {
      out[o] := c;
      o', newlines' := o + 1, 0;
    }
  }

  /** The loop over the filtered text, writing into a buffer of its length plus one. */
  method NormalizeText(buf: Text) returns (text: Text)
    ensures text == Normalized(buf)
  {
    var out := new Char[|buf| + 1](_ => SP);
    var o: nat, newlines: nat, q: nat := 0, 0, 0;
    ghost var st := State([], 0);
    assert buf[0..] == buf && out[..0] == [];
    while q < |buf|
      invariant o <= q <= |buf|
      invariant st == State(out[..o], newlines)
      invariant Run(st, buf[q..]) == Run(State([], 0), buf)
    {
      RunAt(st, buf, q);
      st := Step(st, buf[q]);
      o, newlines := StepInPlace(out, o, newlines, buf[q]);
      q := q + 1;
    }
    o := StripLoop(out, o, true);
    text := out[..o];
  }
}
