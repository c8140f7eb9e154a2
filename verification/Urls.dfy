/** Finding http(s) addresses in plain text. */
module Urls {
  import opened Bytes

  const HTTP: Text := [104, 116, 116, 112, 58, 47, 47]
  const HTTPS: Text := [104, 116, 116, 112, 115, 58, 47, 47]
  const OPEN_PAREN: Char := 40
  const CLOSE_PAREN: Char := 41

  /** Length of the scheme in front of position `p`; 0 when no address starts there. */
  function SchemeLen(text: Text, p: nat): nat
    requires p <= |text|
  {
    if HTTP <= text[p..] then |HTTP| else if HTTPS <= text[p..] then |HTTPS| else 0
  }

  predicate StartsAt(text: Text, p: nat)
    requires p <= |text|
  {
    SchemeLen(text, p) > 0
  }

  /** White space (ASCII), angle brackets and quotes. */
  predicate IsDelim(c: Char) {
    9 <= c <= 13 || c == 32 || c == 60 || c == 62 || c == 34 || c == 39
  }

  /** . , ; : ! ? ] } and the single quote. */
  predicate IsPunctuation(c: Char) {
    c == 46 || c == 44 || c == 59 || c == 58 || c == 33 || c == 63 || c == 93 || c == 125 || c == 39
  }

  /** Opening minus closing parentheses. */
  function Depth(u: Text): int {
    if u == [] then 0
    else
      var c := u[|u| - 1];
      var d := Depth(u[..|u| - 1]);
      if c == OPEN_PAREN then d + 1 else if c == CLOSE_PAREN then d - 1 else d
  }

  /** The last byte does not belong to the address: sentence punctuation, or a parenthesis opened outside. */
  predicate Trimmable(u: Text) {
    u != [] && (IsPunctuation(u[|u| - 1]) || (u[|u| - 1] == CLOSE_PAREN && Depth(u) < 0))
  }

  function RunEnd(text: Text, p: nat): (e: nat)
    requires p <= |text|
    ensures p <= e <= |text|
    ensures forall i | p <= i < e :: !IsDelim(text[i])
    ensures e < |text| ==> IsDelim(text[e])
    decreases |text| - p
  {
    if p < |text| && !IsDelim(text[p]) then RunEnd(text, p + 1) else p
  }

  function Trim(text: Text, p: nat, e: nat): (r: nat)
    requires p <= e <= |text|
    ensures p <= r <= e
    ensures forall x | r < x <= e :: Trimmable(text[p..x])
    ensures r > p ==> !Trimmable(text[p..r])
  {
    if e > p && Trimmable(text[p..e]) then Trim(text, p, e - 1) else e
  }

  /** A result as the half-open range it occupies. */
  datatype Span = Span(start: nat, end: nat)

  /** The scan from position `p`. */
  function Extract(text: Text, p: nat): seq<Span>
    requires p <= |text|
    decreases |text| - p
  {
    if p == |text| then []
    else if !StartsAt(text, p) then Extract(text, p + 1)
    else
      var e := Trim(text, p, RunEnd(text, p));
      if e > p then [Span(p, e)] + Extract(text, e) else Extract(text, p + 1)
  }

  // ----- what the results are ----------------------------------------------

  /** The bytes of a scheme are no delimiters, so it lies within the run; and it ends in a slash. */
  lemma SchemeInRun(text: Text, p: nat, i: nat)
    requires p <= |text| && p <= i < RunEnd(text, p) && StartsAt(text, i)
    ensures i + SchemeLen(text, i) <= RunEnd(text, p)
    ensures !Trimmable(text[p..i + SchemeLen(text, i)])
  {
    var n, r := SchemeLen(text, i), RunEnd(text, p);
    var t := text[i..];
    var scheme := if HTTP <= t then HTTP else HTTPS;
    assert forall j | 0 <= j < n :: text[i + j] == t[j] == scheme[j];
    assert forall j | 0 <= j < n :: !IsDelim(scheme[j]);
    assert r < |text| ==> IsDelim(text[i + (r - i)]);
    var u := text[p..i + n];
    assert u[|u| - 1] == text[i + (n - 1)] == 47;
  }

  /** Trimming never cuts into a scheme: every address start in the run stays inside what is kept. */
  lemma TrimKeepsSchemes(text: Text, p: nat, i: nat)
    requires p <= |text| && p <= i < RunEnd(text, p) && StartsAt(text, i)
    ensures i + SchemeLen(text, i) <= Trim(text, p, RunEnd(text, p))
  {
    SchemeInRun(text, p, i);
  }

  /** One result: a whole address, cut exactly after the longest prefix of its run that needs no trimming. */
  predicate ExactSpan(text: Text, s: Span) {
    && s.start < s.end <= |text|
    && StartsAt(text, s.start) && s.start + SchemeLen(text, s.start) <= s.end
    && s.end <= RunEnd(text, s.start)
    && !Trimmable(text[s.start..s.end])
    && forall x | s.end < x <= RunEnd(text, s.start) :: Trimmable(text[s.start..x])
  }

  lemma StartIsInRun(text: Text, p: nat)
    requires p < |text| && StartsAt(text, p)
    ensures p < RunEnd(text, p)
  {
    assert text[p..][0] == text[p];
    assert HTTP[0] == HTTPS[0] == 104;
  }

  lemma FirstSpan(text: Text, p: nat)
    requires p < |text| && StartsAt(text, p)
    ensures var e := Trim(text, p, RunEnd(text, p)); e > p && ExactSpan(text, Span(p, e))
  {
    StartIsInRun(text, p);
    TrimKeepsSchemes(text, p, p);
  }

  /** Results are exact, in order and disjoint. */
  lemma {:induction false} ExtractExact(text: Text, p: nat)
    requires p <= |text|
    ensures forall s <- Extract(text, p) :: p <= s.start && ExactSpan(text, s)
    ensures forall i, j | 0 <= i < j < |Extract(text, p)| :: Extract(text, p)[i].end <= Extract(text, p)[j].start
    decreases |text| - p
  {
    hide ExactSpan, Trimmable, RunEnd, StartsAt;
    if p < |text| {
      if !StartsAt(text, p) {
        ExtractExact(text, p + 1);
      } else {
        FirstSpan(text, p);
        ExtractExact(text, Trim(text, p, RunEnd(text, p)));
      }
    }
  }

  /** A range of the text lies inside a result. */
  predicate Covered(spans: seq<Span>, from: nat, to: nat) {
    exists s <- spans :: s.start <= from && to <= s.end
  }

  /** Every occurrence of a scheme starts a result or lies inside one, whole. */
  lemma {:induction false} ExtractComplete(text: Text, p: nat, i: nat)
    requires p <= i < |text| && StartsAt(text, i)
    ensures Covered(Extract(text, p), i, i + SchemeLen(text, i))
    decreases |text| - p
  {
    hide RunEnd, StartsAt, SchemeLen, Trim;
    if !StartsAt(text, p) {
      ExtractComplete(text, p + 1, i);
    } else {
      FirstSpan(text, p);
      var e := Trim(text, p, RunEnd(text, p));
      var rest := Extract(text, e);
      assert Extract(text, p) == [Span(p, e)] + rest;
      if i < RunEnd(text, p) {
        TrimKeepsSchemes(text, p, i);
        assert Extract(text, p)[0] == Span(p, e);
      } else {
        ExtractComplete(text, e, i);
        var s :| s in rest && s.start <= i && i + SchemeLen(text, i) <= s.end;
        assert s in Extract(text, p);
      }
    }
  }

  /** The text of a result. */
  function Slice(text: Text, s: Span): Text {
    if s.start <= s.end <= |text| then text[s.start..s.end] else []
  }

  // ----- in bytes ----------------------------------------------------------

  /** White space, '<', '>', '"' and the single quote end an address. */
  predicate EndsRun(c: Char) { 9 <= c <= 13 || c == 32 || c == 60 || c == 62 || c == 34 || c == 39 }

  /** An address ends in none of . , ; : ! ? ] } ' and in a ')' only if it holds at least as many '(' as ')'. */
  predicate EndsWell(u: Text) {
    && u != []
    && u[|u| - 1] !in [46, 44, 59, 58, 33, 63, 93, 125, 39]
    && (u[|u| - 1] == 41 ==> Occurrences(u, 41) <= Occurrences(u, 40))
  }

  lemma {:induction false} DepthCounts(u: Text)
    ensures Depth(u) == Occurrences(u, 40) - Occurrences(u, 41)
  {
    if u != [] {
      var n := |u| - 1;
      DepthCounts(u[..n]);
      assert u == u[..n] + [u[n]];
      OccurrencesConcat(u[..n], [u[n]], 40);
      OccurrencesConcat(u[..n], [u[n]], 41);
      OneOccurrence(u[n], 40);
      OneOccurrence(u[n], 41);
    }
  }

  lemma TrimmableIff(u: Text)
    requires u != []
    ensures Trimmable(u) <==> !EndsWell(u)
  {
    hide Depth, Occurrences;
    DepthCounts(u);
  }

  lemma SchemeIff(text: Text, p: nat)
    requires p <= |text|
    ensures StartsAt(text, p) <==> Ascii("http://") <= text[p..] || Ascii("https://") <= text[p..]
    ensures Ascii("http://") <= text[p..] ==> SchemeLen(text, p) == 7
    ensures Ascii("https://") <= text[p..] ==> SchemeLen(text, p) == 8
  {
    assert HTTP == Ascii("http://");
    assert HTTPS == Ascii("https://");
    assert HTTP[4] != HTTPS[4];
  }

  /**
   * Each result starts with a scheme and is the longest piece of its run that ends well, the run being all up
   * to the next delimiter; so a run that ends well is taken whole, balanced parentheses at its end included.
   */
  lemma ExtractPlain(text: Text, s: Span) returns (e: nat)
    requires s in Extract(text, 0)
    ensures s.start < s.end <= e <= |text|
    ensures Ascii("http://") <= text[s.start..] || Ascii("https://") <= text[s.start..]
    ensures (forall i | s.start <= i < e :: !EndsRun(text[i])) && (e < |text| ==> EndsRun(text[e]))
    ensures EndsWell(text[s.start..s.end]) && forall x | s.end < x <= e :: !EndsWell(text[s.start..x])
    ensures EndsWell(text[s.start..e]) ==> s.end == e
    ensures Slice(text, s) == text[s.start..s.end]
  {
    hide EndsWell, Trimmable, Extract;
    ExtractExact(text, 0);
    SchemeIff(text, s.start);
    e := RunEnd(text, s.start);
    forall x | s.start < x <= e
      ensures Trimmable(text[s.start..x]) <==> !EndsWell(text[s.start..x])
    {
      TrimmableIff(text[s.start..x]);
    }
  }

  // ----- the code ------------------------------------------------------------

  method UrlStartsAt(text: Text, p: nat) returns (r: bool)
    requires p <= |text|
    ensures r == StartsAt(text, p)
  {
    r := HTTP <= text[p..] || HTTPS <= text[p..];
  }

  /** Balance of parentheses in a candidate. */
  method ParenDepth(u: Text) returns (depth: int)
    ensures depth == Depth(u)
  {
    depth := 0;
    var q := 0;
    while q < |u|
      invariant q <= |u| && depth == Depth(u[..q])
    {
      assert u[..q + 1][..q] == u[..q];
      if u[q] == OPEN_PAREN {
        depth := depth + 1;
      } else if u[q] == CLOSE_PAREN {
        depth := depth - 1;
      }
      q := q + 1;
    }
    assert u[..q] == u;
  }

  /** The trimming loop. */
  method TrimLoop(text: Text, p: nat, runEnd: nat) returns (e: nat)
    requires p <= runEnd <= |text|
    ensures e == Trim(text, p, runEnd)
  {
    e := runEnd;
    while e > p
      invariant p <= e <= runEnd && Trim(text, p, e) == Trim(text, p, runEnd)
    {
      var u := text[p..e];
      var c := u[|u| - 1];
      if IsPunctuation(c) {
        e := e - 1;
        continue;
      }
      if c == CLOSE_PAREN {
        var depth := ParenDepth(u);
        if depth < 0 {
          e := e - 1;
          continue;
        }
      }
      break;
    }
  }

  method UrlExtract(text: Text) returns (urls: seq<Text>)
    ensures |urls| == |Extract(text, 0)|
    ensures forall i | 0 <= i < |urls| :: urls[i] == Slice(text, Extract(text, 0)[i])
  {
    urls := [];
    ghost var spans: seq<Span> := [];
    var p := 0;
    while p < |text|
      invariant p <= |text| && spans + Extract(text, p) == Extract(text, 0)
      invariant |urls| == |spans| && forall i | 0 <= i < |urls| :: urls[i] == Slice(text, spans[i])
    {
      var starts := UrlStartsAt(text, p);
      if !starts {
        p := p + 1;
        continue;
      }
      var e := p;
      while e < |text| && !IsDelim(text[e])
        invariant p <= e <= |text| && RunEnd(text, e) == RunEnd(text, p)
      {
        e := e + 1;
      }
      e := TrimLoop(text, p, e);
      if e > p {
        urls := urls + [text[p..e]];
        Assoc(spans, [Span(p, e)], Extract(text, e));
        spans := spans + [Span(p, e)];
      }
      p := if e > p then e else p + 1;
    }
    assert spans + [] == spans;
  }
}
