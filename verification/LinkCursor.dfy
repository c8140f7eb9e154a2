/** Selecting among the article's links, and scrolling. */
module LinkCursor {
  import opened Bytes
  import opened Links

  datatype State = State(links: seq<Link>, nlines: nat, rows: int, scroll: int, sel: int)

  /** C's remainder: the sign follows the dividend. */
  function CRem(a: int, n: nat): int
    requires n > 0
  {
    if a >= 0 then a % n else -((-a) % n)
  }

  function MaxScroll(s: State): nat { if s.nlines - s.rows < 0 then 0 else s.nlines - s.rows }

  function Bounded(x: int, hi: nat): nat { if x < 0 then 0 else if x > hi then hi else x }

  function Scroll(s: State, delta: int): State { s.(scroll := Bounded(s.scroll + delta, MaxScroll(s))) }

  function Reveal(s: State): State {
    if s.sel < 0 || s.sel >= |s.links| then s
    else
      var top := s.links[s.sel].line;
      var bottom := top + s.links[s.sel].nlines;
      var x := if top < s.scroll then top
               else if s.rows > 0 && bottom > s.scroll + s.rows then bottom - s.rows
               else s.scroll;
      s.(scroll := Bounded(x, MaxScroll(s)))
  }

  function NextSel(n: nat, sel: int, delta: int): int
    requires n > 0
  {
    var x := if sel < 0 then (if delta > 0 then 0 else n - 1) else CRem(sel + delta, n);
    if x < 0 then x + n else x
  }

  function LinkMove(s: State, delta: int): State {
    if s.links == [] then s else Reveal(s.(sel := NextSel(|s.links|, s.sel, delta)))
  }

  // ----- the selection is a cyclic group action ----------------------------------------

  lemma Times(d: int, n: nat)
    ensures d > 0 ==> d * n >= n
    ensures d < 0 ==> d * n + n <= 0
  {
  }

  /** Quotient and remainder are unique. */
  lemma UniqueRem(n: nat, q: int, r: int, q': int, r': int)
    requires q * n + r == q' * n + r' && 0 <= r < n && 0 <= r' < n
    ensures r == r'
  {
    Times(q' - q, n);
    assert (q' - q) * n == q' * n - q * n;
  }

  lemma ModFact(a: int, n: nat, q: int, r: int)
    requires n > 0 && a == q * n + r && 0 <= r < n
    ensures a % n == r
  {
    assert a == a / n * n + a % n;
    UniqueRem(n, q, r, a / n, a % n);
  }

  /** From a selection, a move is addition modulo the number of links. */
  lemma NextSelIsModulo(n: nat, sel: int, delta: int)
    requires 0 <= sel < n
    ensures NextSel(n, sel, delta) == (sel + delta) % n
  {
    var a := sel + delta;
    if a < 0 {
      var q, r := (-a) / n, (-a) % n;
      assert -a == q * n + r;
      if r == 0 {
        assert a == (-q) * n + 0;
        ModFact(a, n, -q, 0);
      } else {
        assert a == (-q - 1) * n + (n - r) by {
          assert (-q - 1) * n == -(q * n) - n;
        }
        ModFact(a, n, -q - 1, n - r);
      }
    }
  }

  lemma ModAdd(a: int, b: int, n: nat)
    requires n > 0
    ensures (a % n + b) % n == (a + b) % n
  {
    var q1, q2 := a / n, (a % n + b) / n;
    var r := (a % n + b) % n;
    assert a == q1 * n + a % n && a % n + b == q2 * n + r;
    assert a + b == (q1 + q2) * n + r by {
      assert (q1 + q2) * n == q1 * n + q2 * n;
    }
    ModFact(a + b, n, q1 + q2, r);
  }

  /** Moves add up; a move and its opposite cancel; a full turn changes nothing; and the range is kept. */
  lemma MovesCompose(s: State, a: int, b: int)
    requires 0 <= s.sel < |s.links|
    ensures 0 <= LinkMove(s, a).sel < |s.links| && LinkMove(s, a).links == s.links
    ensures LinkMove(s, a).sel == (s.sel + a) % |s.links|
    ensures LinkMove(LinkMove(s, a), b).sel == LinkMove(s, a + b).sel
    ensures LinkMove(LinkMove(s, a), -a).sel == s.sel
    ensures LinkMove(s, |s.links|).sel == s.sel
  {
    hide CRem, Bounded;
    var n := |s.links|;
    var t := LinkMove(s, a);
    NextSelIsModulo(n, s.sel, a);
    NextSelIsModulo(n, t.sel, b);
    NextSelIsModulo(n, t.sel, -a);
    NextSelIsModulo(n, s.sel, a + b);
    NextSelIsModulo(n, s.sel, n);
    ModAdd(s.sel + a, b, n);
    ModAdd(s.sel + a, -a, n);
    ModFact(s.sel, n, 0, s.sel);
    ModFact(s.sel + n, n, 1, s.sel);
  }

  /** With nothing selected, forward takes the first link, backward the last. */
  lemma FirstMove(s: State, delta: int)
    requires s.links != [] && s.sel < 0
    ensures LinkMove(s, delta).sel == if delta > 0 then 0 else |s.links| - 1
  {
  }

  // ----- the view follows ------------------------------------------------------------------

  predicate InsideArticle(s: State) {
    forall i | 0 <= i < |s.links| :: s.links[i].line + s.links[i].nlines <= s.nlines
  }

  predicate ScrollOk(s: State) { 0 <= s.scroll <= MaxScroll(s) }

  /** All lines of a link are on screen. */
  predicate FullyShown(s: State, l: Link) {
    s.scroll <= l.line && l.line + l.nlines <= s.scroll + s.rows
  }

  lemma RevealShows(s: State)
    requires InsideArticle(s) && s.rows > 0 && 0 <= s.sel < |s.links|
    ensures ScrollOk(Reveal(s))
    ensures s.links[s.sel].nlines <= s.rows ==> FullyShown(Reveal(s), s.links[s.sel])
    ensures ScrollOk(s) && FullyShown(s, s.links[s.sel]) ==> Reveal(s) == s
  {
  }

  /** After a move the scroll is in bounds and a link that fits the pane is fully visible, whatever the scroll was. */
  lemma MoveShows(s: State, delta: int)
    requires InsideArticle(s) && s.rows > 0 && s.links != [] && -1 <= s.sel < |s.links|
    ensures var t := LinkMove(s, delta);
            && 0 <= t.sel < |s.links| && ScrollOk(t)
            && (t.links[t.sel].nlines <= t.rows ==> FullyShown(t, t.links[t.sel]))
  {
    hide Reveal, CRem, FullyShown, ScrollOk;
    if s.sel >= 0 {
      NextSelIsModulo(|s.links|, s.sel, delta);
    }
    RevealShows(s.(sel := NextSel(|s.links|, s.sel, delta)));
    RevealKeepsRest(s.(sel := NextSel(|s.links|, s.sel, delta)));
  }

  lemma RevealKeepsRest(s: State)
    ensures Reveal(s) == s.(scroll := Reveal(s).scroll)
  {
  }

  /** Scrolling goes as far as asked, but stops with the first line on the first row or the last on the last. */
  lemma ScrollMoves(s: State, delta: int)
    requires s.rows > 0
    ensures var t, x := Scroll(s, delta), s.scroll + delta;
            && t == s.(scroll := t.scroll)
            && (0 <= x && x + s.rows <= s.nlines ==> t.scroll == x)
            && (x < 0 ==> t.scroll == 0)
            && (x >= 0 && x + s.rows > s.nlines ==> t.scroll == if s.nlines > s.rows then s.nlines - s.rows else 0)
  {
  }

  /** Showing a link moves as little as needed: its first line to the first row, or its last to the last row. */
  lemma RevealNearest(s: State)
    requires InsideArticle(s) && ScrollOk(s) && s.rows > 0 && 0 <= s.sel < |s.links|
    ensures var l, t := s.links[s.sel], Reveal(s);
            if l.line < s.scroll then t.scroll == l.line
            else if l.line + l.nlines > s.scroll + s.rows then t.scroll + s.rows == l.line + l.nlines
            else t == s
  {
  }

  datatype Op = ScrollBy(delta: int) | Select(delta: int)

  function Apply(s: State, op: Op): State {
    match op
    case ScrollBy(delta) => Scroll(s, delta)
    case Select(delta) => LinkMove(s, delta)
  }

  function Run(s: State, ops: seq<Op>): State
    decreases |ops|
  {
    if ops == [] then s else Run(Apply(s, ops[0]), ops[1..])
  }

  /** Over every run the scroll stays in bounds and the selection names a link or nothing. */
  lemma {:induction false} RunKeeps(s: State, ops: seq<Op>)
    requires InsideArticle(s) && ScrollOk(s) && s.rows > 0 && -1 <= s.sel < |s.links|
    ensures var t := Run(s, ops); ScrollOk(t) && -1 <= t.sel < |t.links| && t.links == s.links
    decreases |ops|
  {
    hide LinkMove, InsideArticle, ScrollOk;
    if ops != [] {
      match ops[0]
      case ScrollBy(delta) =>
        ScrollBounded(s, delta);
        RunKeeps(Scroll(s, delta), ops[1..]);
      case Select(delta) =>
        if s.links != [] {
          MoveShows(s, delta);
        }
        MoveKeepsRest(s, delta);
        RunKeeps(LinkMove(s, delta), ops[1..]);
    }
  }

  lemma ScrollBounded(s: State, delta: int)
    ensures ScrollOk(Scroll(s, delta)) && (InsideArticle(s) ==> InsideArticle(Scroll(s, delta)))
  {
  }

  lemma MoveKeepsRest(s: State, delta: int)
    ensures LinkMove(s, delta) == s.(scroll := LinkMove(s, delta).scroll, sel := LinkMove(s, delta).sel)
    ensures s.links == [] ==> LinkMove(s, delta) == s
    ensures InsideArticle(s) ==> InsideArticle(LinkMove(s, delta))
  {
    hide NextSel;
    if s.links != [] {
      RevealKeepsRest(s.(sel := NextSel(|s.links|, s.sel, delta)));
    }
  }

  // ----- the code ------------------------------------------------------------------------------

  class ArticlePane {
    var links: seq<Link>
    var nlines: nat
    var rows: int
    var scroll: int
    var sel: int

    ghost function Now(): State
      reads this
    {
      State(links, nlines, rows, scroll, sel)
    }

    /** A rebuilt article: nothing selected, scrolled to the top. */
    constructor (ls: seq<Link>, n: nat, r: int)
      ensures Now() == State(ls, n, r, 0, -1)
    {
      links, nlines, rows, scroll, sel := ls, n, r, 0, -1;
    }

    method ScrollLines(delta: int)
      modifies this`scroll
      ensures Now() == Scroll(old(Now()), delta)
    {
      var max := nlines - rows;
      if max < 0 {
        max := 0;
      }
      var x := scroll + delta;
      if x < 0 {
        x := 0;
      }
      if x > max {
        x := max;
      }
      scroll := x;
    }

    method RevealLink()
      modifies this`scroll
      ensures Now() == Reveal(old(Now()))
    {
      if sel < 0 || sel >= |links| {
        return;
      }
      var top := links[sel].line;
      var bottom := top + links[sel].nlines;
      if top < scroll {
        scroll := top;
      } else if rows > 0 && bottom > scroll + rows {
        scroll := bottom - rows;
      }
      var max := nlines - rows;
      if max < 0 {
        max := 0;
      }
      if scroll < 0 {
        scroll := 0;
      }
      if scroll > max {
        scroll := max;
      }
    }

    method MoveLink(delta: int)
      modifies this`scroll, this`sel
      ensures Now() == LinkMove(old(Now()), delta)
    {
      hide Reveal, CRem;
      if |links| == 0 {
        return;
      }
      var n := |links|;
      var x := sel;
      if x < 0 {
        x := if delta > 0 then 0 else n - 1;
      } else {
        x := CRem(x + delta, n);
      }
      if x < 0 {
        x := x + n;
      }
      sel := x;
      RevealLink();
    }
  }
}
