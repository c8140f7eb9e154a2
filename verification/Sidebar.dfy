/** The sidebar: a collapsible tree flattened into a list, with a cursor and a viewport. */
module Sidebar {
  import opened Bytes
  import opened Ranks

  datatype Kind = Section | Entry

  datatype Source = FromVirtual | FromLabel | FromCategory | FromFeed

  datatype Item = Item(kind: Kind, source: Source, id: int, title: string, unread: int,
                       depth: int, isCat: bool, expanded: bool)

  // ----- visibility -----------------------------------------------------------

  /** Nearest item of depth 0 before position `i`; -1 if there is none. */
  function RootBefore(items: seq<Item>, i: nat): (r: int)
    requires i <= |items|
    ensures -1 <= r < i
    ensures r >= 0 ==> items[r].depth == 0
    ensures forall j | r < j < i :: items[j].depth != 0
  {
    if i == 0 then -1 else if items[i - 1].depth == 0 then i - 1 else RootBefore(items, i - 1)
  }

  /** A deeper item is hidden when the category that owns it is collapsed. */
  predicate Visible(items: seq<Item>, i: nat)
    requires i < |items|
  {
    items[i].depth <= 0
    || (var r := RootBefore(items, i); r >= 0 && items[r].isCat ==> items[r].expanded)
  }

  predicate Selectable(items: seq<Item>, i: nat)
    requires i < |items|
  {
    items[i].kind == Entry && Visible(items, i)
  }

  function Shown(items: seq<Item>): (fs: seq<bool>)
    ensures |fs| == |items| && forall i | 0 <= i < |items| :: fs[i] == Visible(items, i)
  {
    seq(|items|, i requires 0 <= i < |items| => Visible(items, i))
  }

  function Choices(items: seq<Item>): (fs: seq<bool>)
    ensures |fs| == |items| && forall i | 0 <= i < |items| :: fs[i] == Selectable(items, i)
  {
    seq(|items|, i requires 0 <= i < |items| => Selectable(items, i))
  }

  /** Row an item is drawn on, counted from the top of the list. */
  function VisiblePos(items: seq<Item>, idx: int): nat { Count(Shown(items), Clamp(idx, 0, |items|)) }

  /** The item on a row; the last item for rows beyond the end. */
  function ItemAtVisible(items: seq<Item>, row: int): int {
    if row < 0 then |items| - 1
    else
      var r := Nth(Shown(items), row);
      if r < |items| then r else |items| - 1
  }

  /** Rows and visible items correspond one to one. */
  /** Items of depth 0 are always visible, and so is everything while all categories are open. */
  lemma AlwaysVisible(items: seq<Item>, i: nat)
    requires i < |items|
    ensures items[i].depth <= 0 ==> Visible(items, i)
    ensures (forall j | 0 <= j < |items| && items[j].isCat :: items[j].expanded) ==> Visible(items, i)
  {
  }

  lemma RowsInvert(items: seq<Item>, i: nat, row: nat)
    ensures i < |items| && Visible(items, i) ==>
      VisiblePos(items, i) < Total(Shown(items)) && ItemAtVisible(items, VisiblePos(items, i)) == i
    ensures row < Total(Shown(items)) ==>
      0 <= ItemAtVisible(items, row) < |items| && Visible(items, ItemAtVisible(items, row))
      && VisiblePos(items, ItemAtVisible(items, row)) == row
    ensures row >= Total(Shown(items)) ==> ItemAtVisible(items, row) == |items| - 1
  {
    hide Visible;
    if i < |items| && Visible(items, i) {
      CountNth(Shown(items), i);
    }
    NthCount(Shown(items), row);
  }

  // ----- the cursor --------------------------------------------------------------

  datatype State = State(items: seq<Item>, sel: int, top: int, rows: int)

  /** First selectable position from `from` in direction `dir`; -1 if the list ends first. */
  function NextSelectable(items: seq<Item>, from: int, dir: int): (r: int)
    requires dir == 1 || dir == -1
    ensures -1 <= r < |items|
    decreases if dir == 1 then |items| - from else from + 1
  {
    if !(0 <= from < |items|) then -1
    else if Selectable(items, from) then from
    else NextSelectable(items, from + dir, dir)
  }

  /** `count` moves in one direction, stopping at the last selectable item. */
  function Advance(items: seq<Item>, idx: int, dir: int, count: nat): int
    requires dir == 1 || dir == -1
    decreases count
  {
    if count == 0 then idx
    else
      var next := NextSelectable(items, idx + dir, dir);
      if next < 0 then idx else Advance(items, next, dir, count - 1)
  }

  function ClampTop(s: State): State {
    if s.rows <= 0 then s
    else
      var sel, top := VisiblePos(s.items, s.sel), VisiblePos(s.items, s.top);
      if sel < top then s.(top := s.sel)
      else if sel >= top + s.rows then s.(top := ItemAtVisible(s.items, sel - s.rows + 1))
      else s
  }

  function Move(s: State, delta: int): State {
    if s.items == [] then s
    else
      var idx := if delta > 0 then Advance(s.items, s.sel, 1, delta) else Advance(s.items, s.sel, -1, -delta);
      if idx < 0 then s else ClampTop(s.(sel := idx))
  }

  function Home(s: State): State {
    var first := NextSelectable(s.items, 0, 1);
    s.(sel := if first >= 0 then first else s.sel, top := 0)
  }

  function End(s: State): State {
    var last := NextSelectable(s.items, |s.items| - 1, -1);
    ClampTop(s.(sel := if last >= 0 then last else s.sel))
  }

  /** Enter on a category opens or closes it; on anything else the sidebar does not change. */
  function Activate(s: State): State {
    if 0 <= s.sel < |s.items| && s.items[s.sel].isCat then
      s.(items := s.items[s.sel := s.items[s.sel].(expanded := !s.items[s.sel].expanded)])
    else s
  }

  /** First entry of a freshly built list; -1 if it holds none. */
  function FirstEntry(items: seq<Item>, i: nat): (r: int)
    requires i <= |items|
    ensures r == -1 || (i <= r < |items| && items[r].kind == Entry)
    decreases |items| - i
  {
    if i == |items| then -1 else if items[i].kind == Entry then i else FirstEntry(items, i + 1)
  }

  /** A new list: the first entry is selected, the view is at the top. */
  function Loaded(s: State, items: seq<Item>): State { State(items, FirstEntry(items, 0), 0, s.rows) }

  // ----- a move is clamped arithmetic on ranks -----------------------------------

  lemma {:induction false} NextUp(items: seq<Item>, from: nat)
    requires from <= |items|
    ensures var r := NextSelectable(items, from, 1);
            if r >= 0 then Choices(items)[r] && Count(Choices(items), r) == Count(Choices(items), from)
            else Total(Choices(items)) == Count(Choices(items), from)
    decreases |items| - from
  {
    hide Selectable;
    if from < |items| && !Selectable(items, from) {
      NextUp(items, from + 1);
    }
  }

  lemma {:induction false} NextDown(items: seq<Item>, from: int)
    requires -1 <= from < |items|
    ensures var r := NextSelectable(items, from, -1);
            if r >= 0 then Choices(items)[r] && Count(Choices(items), r) == Count(Choices(items), from + 1) - 1
            else Count(Choices(items), from + 1) == 0
    decreases from + 1
  {
    hide Selectable;
    if from >= 0 && !Selectable(items, from) {
      NextDown(items, from - 1);
    }
  }

  lemma {:induction false} AdvanceUp(items: seq<Item>, idx: nat, count: nat)
    requires idx < |items| && Selectable(items, idx)
    ensures var r := Advance(items, idx, 1, count); var fs := Choices(items);
            0 <= r < |items| && fs[r]
            && Count(fs, r) == Clamp(Count(fs, idx) + count, 0, Total(fs) - 1)
    decreases count
  {
    hide Selectable, NextSelectable;
    CountNth(Choices(items), idx);
    if count > 0 {
      NextUp(items, idx + 1);
      var next := NextSelectable(items, idx + 1, 1);
      if next >= 0 {
        CountNth(Choices(items), next);
        AdvanceUp(items, next, count - 1);
      }
    }
  }

  lemma {:induction false} AdvanceDown(items: seq<Item>, idx: nat, count: nat)
    requires idx < |items| && Selectable(items, idx)
    ensures var r := Advance(items, idx, -1, count); var fs := Choices(items);
            0 <= r < |items| && fs[r]
            && Count(fs, r) == Clamp(Count(fs, idx) - count, 0, Total(fs) - 1)
    decreases count
  {
    hide Selectable, NextSelectable;
    CountNth(Choices(items), idx);
    if count > 0 {
      NextDown(items, idx - 1);
      var next := NextSelectable(items, idx - 1, -1);
      if next >= 0 {
        CountNth(Choices(items), next);
        AdvanceDown(items, next, count - 1);
      }
    }
  }

  /** From rank k, a move by `delta` lands on rank clamp(k + delta, 0, count - 1) of the selectable items. */
  lemma MoveRank(s: State, delta: int)
    requires 0 <= s.sel < |s.items| && Selectable(s.items, s.sel)
    ensures var fs, t := Choices(s.items), Move(s, delta);
            && t.items == s.items && 0 <= t.sel < |t.items| && Selectable(t.items, t.sel)
            && Count(fs, t.sel) == Clamp(Count(fs, s.sel) + delta, 0, Total(fs) - 1)
  {
    hide Selectable, VisiblePos, ItemAtVisible, Advance;
    if delta > 0 {
      AdvanceUp(s.items, s.sel, delta);
    } else {
      AdvanceDown(s.items, s.sel, -delta);
    }
  }

  // ----- what every run keeps -----------------------------------------------------

  /** What a built list always looks like: a header first, entries of depth 0 after it, categories at depth 0. */
  predicate Shape(items: seq<Item>) {
    && (forall i | 0 <= i < |items| :: items[i].isCat ==> items[i].depth == 0 && items[i].kind == Entry)
    && (|items| > 0 ==> items[0].kind == Section && items[0].depth == 0)
    && (|items| > 1 ==> items[1].kind == Entry && items[1].depth == 0)
  }

  /** The selection is never hidden; the first row drawn is never hidden and never below the selection. */
  predicate Core(s: State) {
    && Shape(s.items)
    && (|s.items| == 1 ==> s.sel == -1 && s.top == 0)
    && (|s.items| > 1 ==>
        0 <= s.top <= s.sel < |s.items| && Selectable(s.items, s.sel) && Visible(s.items, s.top))
  }

  /** The selected row is inside the viewport. */
  predicate InView(s: State) {
    |s.items| > 1 ==>
      VisiblePos(s.items, s.top) <= VisiblePos(s.items, s.sel) < VisiblePos(s.items, s.top) + s.rows
  }

  lemma PosOrder(items: seq<Item>, i: nat, j: nat)
    requires i < |items| && j < |items| && Visible(items, i) && Visible(items, j)
    ensures VisiblePos(items, i) <= VisiblePos(items, j) <==> i <= j
  {
    hide Visible;
    CountOrder(Shown(items), i, j);
  }

  /** Clamping the top puts a visible selection into view, whatever the top was. */
  lemma ClampTopFits(s: State)
    requires Shape(s.items) && |s.items| > 1 && s.rows >= 1
    requires 0 <= s.sel < |s.items| && Selectable(s.items, s.sel)
    requires 0 <= s.top < |s.items| && Visible(s.items, s.top)
    ensures Core(ClampTop(s)) && InView(ClampTop(s)) && ClampTop(s).items == s.items && ClampTop(s).sel == s.sel
  {
    hide Visible, VisiblePos, ItemAtVisible;
    var t := ClampTop(s);
    var pos := VisiblePos(s.items, s.sel);
    RowsInvert(s.items, s.sel, if pos >= s.rows then pos - s.rows + 1 else 0);
    PosOrder(s.items, s.top, s.sel);
    if 0 <= t.top < |s.items| && Visible(s.items, t.top) {
      PosOrder(s.items, t.top, s.sel);
    }
  }

  /**
   * The top moves only if it has to: to the selection if that is above it, and if it is below the last row to
   * the item that puts the selection on the last row.
   */
  lemma ClampTopNearest(s: State)
    requires 0 <= s.sel < |s.items| && Visible(s.items, s.sel) && s.rows > 0
    ensures var sel, top, t := VisiblePos(s.items, s.sel), VisiblePos(s.items, s.top), ClampTop(s);
            && t == s.(top := t.top)
            && (sel < top ==> t.top == s.sel)
            && (top <= sel < top + s.rows ==> t.top == s.top)
            && (sel >= top + s.rows ==>
                0 <= t.top < |s.items| && Visible(s.items, t.top) && VisiblePos(s.items, t.top) + s.rows == sel + 1)
  {
    hide Visible, VisiblePos, ItemAtVisible;
    var pos := VisiblePos(s.items, s.sel);
    RowsInvert(s.items, s.sel, if pos >= s.rows then pos - s.rows + 1 else 0);
  }

  lemma FirstChoice(items: seq<Item>)
    requires Shape(items) && |items| > 1
    ensures NextSelectable(items, 0, 1) == 1 && FirstEntry(items, 0) == 1
    ensures Visible(items, 0) && Selectable(items, 1) && VisiblePos(items, 0) == 0 && VisiblePos(items, 1) == 1
  {
    assert NextSelectable(items, 0, 1) == NextSelectable(items, 1, 1);
    assert FirstEntry(items, 0) == FirstEntry(items, 1);
    assert Count(Shown(items), 1) == Count(Shown(items), 0) + 1;
  }

  lemma NoChoice(items: seq<Item>, from: int, dir: int)
    requires Shape(items) && |items| <= 1 && (dir == 1 || dir == -1)
    ensures NextSelectable(items, from, dir) == -1
    decreases if dir == 1 then |items| - from else from + 1
  {
    if 0 <= from < |items| {
      NoChoice(items, from + dir, dir);
    }
  }

  lemma MoveKeeps(s: State, delta: int)
    requires Core(s) && s.rows >= 1
    ensures Core(Move(s, delta)) && InView(Move(s, delta))
  {
    hide Visible, Selectable, VisiblePos, ItemAtVisible, NextSelectable, ClampTop, Shape;
    if |s.items| > 1 {
      MoveRank(s, delta);
      var idx := if delta > 0 then Advance(s.items, s.sel, 1, delta) else Advance(s.items, s.sel, -1, -delta);
      if delta > 0 {
        AdvanceUp(s.items, s.sel, delta);
      } else {
        AdvanceDown(s.items, s.sel, -delta);
      }
      ClampTopFits(s.(sel := idx));
    } else if |s.items| == 1 {
      if delta > 0 {
        NoChoice(s.items, s.sel + 1, 1);
      } else if delta < 0 {
        NoChoice(s.items, s.sel - 1, -1);
      }
    }
  }

  /** Home shows the header and the first entry below it, so it needs two rows. */
  lemma HomeKeeps(s: State)
    requires Core(s)
    ensures Core(Home(s)) && (|s.items| > 1 ==> Home(s).sel == 1) && Home(s).top == 0
    ensures InView(Home(s)) <==> s.rows >= 2 || |s.items| <= 1
  {
    hide Visible, Selectable, VisiblePos, NextSelectable;
    if |s.items| > 1 {
      FirstChoice(s.items);
    } else {
      NoChoice(s.items, 0, 1);
    }
  }

  lemma EndKeeps(s: State)
    requires Core(s) && s.rows >= 1
    ensures Core(End(s)) && InView(End(s)) && End(s).items == s.items
    ensures |s.items| > 1 ==> Count(Choices(s.items), End(s).sel) == Total(Choices(s.items)) - 1
  {
    hide Visible, Selectable, VisiblePos, ItemAtVisible, NextSelectable, Shape;
    if |s.items| > 1 {
      hide ClampTop;
      NextDown(s.items, |s.items| - 1);
      CountNth(Choices(s.items), s.sel);
      ClampTopFits(s.(sel := NextSelectable(s.items, |s.items| - 1, -1)));
    } else {
      NoChoice(s.items, |s.items| - 1, -1);
      EndOfHeader(s);
    }
  }

  lemma EndOfHeader(s: State)
    requires Core(s) && |s.items| <= 1 && s.rows >= 1
    ensures ClampTop(s) == s
  {
  }

  /** Opening or closing a category moves nothing at or above it. */
  lemma ToggleAbove(s: State, i: nat)
    requires Core(s) && Activate(s) != s && i <= s.sel
    ensures |Activate(s).items| == |s.items| && s.sel < |s.items|
    ensures Visible(Activate(s).items, i) == Visible(s.items, i)
  {
    RootSame(s.items, Activate(s).items, i);
  }

  lemma {:induction false} RootSame(a: seq<Item>, b: seq<Item>, i: nat)
    requires |a| == |b| && i <= |a| && forall j | 0 <= j < |a| :: a[j].depth == b[j].depth
    ensures RootBefore(a, i) == RootBefore(b, i)
  {
    if i > 0 {
      RootSame(a, b, i - 1);
    }
  }

  /**
   * Activating a category flips it and nothing else: the items below it appear or disappear, all others stay as
   * they were, and activating it again undoes that.
   */
  lemma ActivateToggles(s: State, i: nat)
    requires 0 <= s.sel < |s.items| && i < |s.items|
    ensures var t := Activate(s);
            && t == s.(items := t.items) && |t.items| == |s.items| && Activate(t) == s
            && t.items[i] == s.items[i].(expanded := t.items[i].expanded)
            && (t.items[i].expanded != s.items[i].expanded <==> i == s.sel && s.items[i].isCat)
            && (Visible(t.items, i) != Visible(s.items, i) <==>
                s.items[s.sel].isCat && s.items[i].depth > 0 && RootBefore(s.items, i) == s.sel)
  {
    RootSame(s.items, Activate(s).items, i);
    assert s.items[s.sel := s.items[s.sel]] == s.items;
  }

  lemma ToggleRanks(s: State)
    requires Core(s) && Activate(s) != s
    ensures var t := Activate(s);
            && VisiblePos(t.items, t.sel) == VisiblePos(s.items, s.sel)
            && VisiblePos(t.items, t.top) == VisiblePos(s.items, s.top)
  {
    hide Visible;
    var t := Activate(s);
    forall i: nat | i <= s.sel
      ensures Visible(t.items, i) == Visible(s.items, i)
    {
      ToggleAbove(s, i);
    }
    CountSame(Shown(s.items), Shown(t.items), s.sel);
    CountSame(Shown(s.items), Shown(t.items), s.top);
  }

  lemma ActivateKeeps(s: State)
    requires Core(s)
    ensures Core(Activate(s)) && (InView(s) ==> InView(Activate(s)))
  {
    hide Visible, VisiblePos;
    if Activate(s) != s {
      ToggleRanks(s);
      ToggleAbove(s, s.sel);
      ToggleAbove(s, s.top);
    }
  }

  lemma LoadKeeps(s: State, items: seq<Item>)
    requires Shape(items)
    ensures Core(Loaded(s, items)) && Loaded(s, items).sel == (if |items| > 1 then 1 else -1) && Loaded(s, items).top == 0
    ensures InView(Loaded(s, items)) <==> s.rows >= 2 || |items| <= 1
  {
    hide Visible, Selectable, VisiblePos;
    if |items| > 1 {
      FirstChoice(items);
    }
  }

  datatype Op = Load(items: seq<Item>) | LoadFails | Step(delta: int) | ToStart | ToEnd | Toggle | Resize(rows: int)

  /** Lists come from the builder; the layout gives the sidebar at least one row. */
  predicate Legal(op: Op) {
    (op.Load? ==> Shape(op.items)) && (op.Resize? ==> op.rows >= 1)
  }

  /** A failed load empties the list and leaves cursor and top as they were. */
  function Apply(s: State, op: Op): State {
    match op
    case Load(items) => Loaded(s, items)
    case LoadFails => s.(items := [])
    case Step(delta) => Move(s, delta)
    case ToStart => Home(s)
    case ToEnd => End(s)
    case Toggle => Activate(s)
    case Resize(rows) => s.(rows := rows)
  }

  function Run(s: State, ops: seq<Op>): State
    decreases |ops|
  {
    if ops == [] then s else Run(Apply(s, ops[0]), ops[1..])
  }

  lemma ApplyKeeps(s: State, op: Op)
    requires Core(s) && s.rows >= 1 && Legal(op)
    ensures Core(Apply(s, op)) && Apply(s, op).rows >= 1
    ensures (op.Step? || op.ToEnd?) ==> InView(Apply(s, op))
    ensures !op.Resize? ==> Apply(s, op).rows == s.rows
    ensures !op.Resize? && s.rows >= 2 && InView(s) ==> InView(Apply(s, op))
    ensures op.Resize? && op.rows >= s.rows && InView(s) ==> InView(Apply(s, op))
  {
    hide Core, InView, Loaded, Move, Home, End, Activate;
    match op
    case Load(items) =>
      LoadKeeps(s, items);
      LoadRows(s, items);
    case LoadFails => EmptyCore(s.(items := []));
    case Step(delta) =>
      MoveKeeps(s, delta);
      MoveRows(s, delta);
    case ToStart =>
      HomeKeeps(s);
      HomeRows(s);
    case ToEnd =>
      EndKeeps(s);
      EndRows(s);
    case Toggle =>
      ActivateKeeps(s);
      ToggleRows(s);
    case Resize(rows) => ResizeCore(s, rows);
  }

  /** A failed load leaves an empty list with a stale cursor; moves and toggles then do nothing until the next load. */
  lemma FailedLoad(s: State, delta: int)
    ensures var t := Apply(s, LoadFails);
            && t.items == [] && t.sel == s.sel && t.top == s.top
            && Apply(t, Step(delta)) == t && Apply(t, Toggle) == t && Apply(t, ToStart) == t.(top := 0)
  {
  }

  lemma LoadRows(s: State, items: seq<Item>)
    ensures Loaded(s, items).rows == s.rows && Loaded(s, items).items == items
  {
  }

  lemma MoveRows(s: State, delta: int)
    ensures Move(s, delta).rows == s.rows
  {
  }

  lemma HomeRows(s: State)
    ensures Home(s).rows == s.rows
  {
  }

  lemma EndRows(s: State)
    ensures End(s).rows == s.rows
  {
  }

  lemma ToggleRows(s: State)
    ensures Activate(s).rows == s.rows
  {
  }

  lemma EmptyCore(s: State)
    requires s.items == []
    ensures Core(s) && InView(s)
  {
  }

  lemma ResizeCore(s: State, rows: int)
    requires Core(s)
    ensures Core(s.(rows := rows))
    ensures rows >= s.rows && InView(s) ==> InView(s.(rows := rows))
  {
  }

  /** Over every run the selection stays visible and the top of the view stays visible and above it. */
  lemma {:induction false} RunKeepsCore(s: State, ops: seq<Op>)
    requires Core(s) && s.rows >= 1 && forall op <- ops :: Legal(op)
    ensures Core(Run(s, ops)) && Run(s, ops).rows >= 1
    decreases |ops|
  {
    hide Core, Apply;
    if ops != [] {
      ApplyKeeps(s, ops[0]);
      RunKeepsCore(Apply(s, ops[0]), ops[1..]);
    }
  }

  /** No resize makes the pane smaller than it is at that point. */
  predicate NeverShrinks(rows: int, ops: seq<Op>)
    decreases |ops|
  {
    ops == []
    || (if ops[0].Resize? then ops[0].rows >= rows && NeverShrinks(ops[0].rows, ops[1..])
        else NeverShrinks(rows, ops[1..]))
  }

  /** With two rows or more, and the pane never made smaller, every run also keeps the selected row in view. */
  lemma {:induction false} RunKeepsView(s: State, ops: seq<Op>)
    requires Core(s) && InView(s) && s.rows >= 2 && NeverShrinks(s.rows, ops)
    requires forall op <- ops :: Legal(op)
    ensures Core(Run(s, ops)) && InView(Run(s, ops))
    decreases |ops|
  {
    hide Core, InView, Apply;
    if ops != [] {
      ApplyKeeps(s, ops[0]);
      if ops[0].Resize? {
        ResizeRows(s, ops[0].rows);
      }
      RunKeepsView(Apply(s, ops[0]), ops[1..]);
    }
  }

  lemma ResizeRows(s: State, rows: int)
    ensures Apply(s, Resize(rows)).rows == rows
  {
  }

  /** Whatever happened before, a move or a jump to the end brings the selection back into view. */
  lemma RunThenMove(s: State, ops: seq<Op>, op: Op)
    requires Core(s) && s.rows >= 1 && (forall o <- ops :: Legal(o)) && (op.Step? || op.ToEnd?)
    ensures InView(Apply(Run(s, ops), op))
  {
    hide Core, InView, Apply;
    RunKeepsCore(s, ops);
    ApplyKeeps(Run(s, ops), op);
  }
}
