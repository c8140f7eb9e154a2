/** Greedy filling uses as few lines as any layout of the same items. */
module WrapOptimal {
  import opened Bytes
  import opened Cells
  import opened Wrap

  // ----- the counting argument, on widths alone (0 stands for a blank line) --------

  function Open(cur: nat): nat { if cur > 0 then 1 else 0 }

  /** Lines the greedy filler still produces when the current line is `cur` wide. */
  function Greedy(width: nat, ws: seq<nat>, cur: nat): nat
    decreases |ws|
  {
    if ws == [] then Open(cur)
    else if ws[0] == 0 then Open(cur) + 1 + Greedy(width, ws[1..], 0)
    else if cur > 0 && cur + 1 + ws[0] <= width then Greedy(width, ws[1..], cur + 1 + ws[0])
    else Open(cur) + Greedy(width, ws[1..], ws[0])
  }

  /** A fuller line never saves a line, and costs at most one more. */
  lemma {:induction false} GreedyMonotone(width: nat, ws: seq<nat>, c: nat, d: nat)
    requires 0 < c <= d
    ensures Greedy(width, ws, c) <= Greedy(width, ws, d)
    decreases |ws|, 1
  {
    if ws != [] && ws[0] > 0 {
      if d + 1 + ws[0] <= width {
        GreedyMonotone(width, ws[1..], c + 1 + ws[0], d + 1 + ws[0]);
      } else if c + 1 + ws[0] <= width {
        GreedyOneMore(width, ws[1..], c + 1 + ws[0], ws[0]);
      }
    }
  }

  lemma {:induction false} GreedyOneMore(width: nat, ws: seq<nat>, c: nat, d: nat)
    requires c > 0 && d > 0
    ensures Greedy(width, ws, c) <= 1 + Greedy(width, ws, d)
    decreases |ws|, 0
  {
    if ws != [] && ws[0] > 0 {
      var w := ws[0];
      if c + 1 + w <= width && d + 1 + w <= width {
        GreedyOneMore(width, ws[1..], c + 1 + w, d + 1 + w);
      } else if c + 1 + w <= width {
        GreedyOneMore(width, ws[1..], c + 1 + w, w);
      } else if d + 1 + w <= width {
        GreedyMonotone(width, ws[1..], w, d + 1 + w);
      }
    }
  }

  /** Columns words add to a line that has been started, each with its space. */
  function Added(r: seq<nat>): nat { if r == [] then 0 else 1 + r[0] + Added(r[1..]) }

  predicate Positive(r: seq<nat>) { forall i | 0 <= i < |r| :: r[i] > 0 }

  /** One line of a layout: a blank line, or words that fit with single spaces between them. */
  predicate FitsLine(width: nat, r: seq<nat>) {
    r == [0] || (r != [] && Positive(r) && Added(r) <= width + 1)
  }

  predicate FitLines(width: nat, rows: seq<seq<nat>>) {
    forall i | 0 <= i < |rows| :: FitsLine(width, rows[i])
  }

  /**
   * Greedy stays ahead: with no more on its line than the layout has, it needs no more lines than the
   * layout, which still has `g` to put on its line and then `rows`.
   */
  lemma {:induction false} GreedyAhead(width: nat, ws: seq<nat>, cur: nat, other: nat, g: seq<nat>, rows: seq<seq<nat>>)
    requires 0 < cur <= other && other + Added(g) <= width && Positive(g) && FitLines(width, rows)
    requires ws == g + Flatten(rows)
    ensures Greedy(width, ws, cur) <= 1 + |rows|
    decreases |ws|, 0
  {
    if g != [] {
      assert ws[0] == g[0] && ws[1..] == g[1..] + Flatten(rows);
      GreedyAhead(width, ws[1..], cur + 1 + g[0], other + 1 + g[0], g[1..], rows);
    } else if rows != [] {
      var r, rest := rows[0], rows[1..];
      assert FitsLine(width, r) && ws == r + Flatten(rest);
      assert ws[0] == r[0] && ws[1..] == r[1..] + Flatten(rest);
      if r == [0] {
        assert ws[1..] == Flatten(rest);
        GreedyMinimal(width, ws[1..], rest);
      } else {
        GreedyAhead(width, ws[1..], r[0], r[0], r[1..], rest);
        if cur + 1 + r[0] <= width {
          GreedyOneMore(width, ws[1..], cur + 1 + r[0], r[0]);
        }
      }
    } else {
      assert ws == [];
    }
  }

  lemma {:induction false} GreedyMinimal(width: nat, ws: seq<nat>, rows: seq<seq<nat>>)
    requires FitLines(width, rows) && ws == Flatten(rows)
    ensures Greedy(width, ws, 0) <= |rows|
    decreases |ws|, 1
  {
    if rows != [] {
      var r, rest := rows[0], rows[1..];
      assert FitsLine(width, r) && ws == r + Flatten(rest);
      assert ws[0] == r[0] && ws[1..] == r[1..] + Flatten(rest);
      if r == [0] {
        assert ws[1..] == Flatten(rest);
        GreedyMinimal(width, ws[1..], rest);
      } else {
        GreedyAhead(width, ws[1..], r[0], r[0], r[1..], rest);
      }
    }
  }

  // ----- layouts of items -----------------------------------------------------------

  function Cost(wc: Wc, x: Item): nat { if x.Blank? then 0 else Width(wc, x.bytes) }

  function Costs(wc: Wc, items: seq<Item>): seq<nat> {
    seq(|items|, i requires 0 <= i < |items| => Cost(wc, items[i]))
  }

  /** Every word takes between one column and a whole line. */
  predicate Ordinary(wc: Wc, width: nat, items: seq<Item>) {
    forall i | 0 <= i < |items| :: items[i].Word? ==> 0 < Width(wc, items[i].bytes) <= width
  }

  /** Some way of putting the items, in order, on lines that fit. */
  predicate IsLayout(wc: Wc, width: nat, rows: seq<seq<Item>>, items: seq<Item>) {
    Flatten(rows) == items && forall i | 0 <= i < |rows| :: FitsLine(width, Costs(wc, rows[i]))
  }

  function RowCosts(wc: Wc, rows: seq<seq<Item>>): seq<seq<nat>> {
    seq(|rows|, i requires 0 <= i < |rows| => Costs(wc, rows[i]))
  }

  lemma {:induction false} CostsFlatten(wc: Wc, rows: seq<seq<Item>>)
    ensures Costs(wc, Flatten(rows)) == Flatten(RowCosts(wc, rows))
  {
    if rows != [] {
      CostsFlatten(wc, rows[1..]);
      assert RowCosts(wc, rows)[1..] == RowCosts(wc, rows[1..]);
      assert Costs(wc, rows[0] + Flatten(rows[1..])) == Costs(wc, rows[0]) + Costs(wc, Flatten(rows[1..]));
    }
  }

  // ----- the filler's own layout ------------------------------------------------------

  /** Text and width of a line that holds these items. */
  function RowText(row: seq<Item>): Text {
    if row == [] || row[|row| - 1].Blank? then []
    else if |row| == 1 then row[0].bytes
    else RowText(row[..|row| - 1]) + [SP] + row[|row| - 1].bytes
  }

  function RowCells(wc: Wc, row: seq<Item>): nat {
    if row == [] then 0
    else if |row| == 1 then Cost(wc, row[0])
    else RowCells(wc, row[..|row| - 1]) + 1 + Cost(wc, row[|row| - 1])
  }

  function Close(cur: seq<Item>): seq<seq<Item>> { if cur == [] then [] else [cur] }

  /** The rows the filler makes, `cur` being the one it is working on. */
  function Rows(wc: Wc, width: nat, cur: seq<Item>, items: seq<Item>): seq<seq<Item>>
    decreases |items|
  {
    if items == [] then Close(cur)
    else if items[0].Blank? then Close(cur) + [[Blank]] + Rows(wc, width, [], items[1..])
    else if cur != [] && RowCells(wc, cur) + 1 + Width(wc, items[0].bytes) <= width then
      Rows(wc, width, cur + [items[0]], items[1..])
    else Close(cur) + Rows(wc, width, [items[0]], items[1..])
  }

  function Texts(rows: seq<seq<Item>>): seq<Text> {
    seq(|rows|, i requires 0 <= i < |rows| => RowText(rows[i]))
  }

  /** A row in progress: words only, its text and width being the filler's line. */
  predicate InProgress(wc: Wc, width: nat, cur: seq<Item>, st: State) {
    && (forall i | 0 <= i < |cur| :: cur[i].Word? && 0 < Width(wc, cur[i].bytes))
    && st.cells == RowCells(wc, cur) <= width
    && (cur != [] ==> st.cells > 0 && st.line == RowText(cur))
  }

  lemma RowSnoc(wc: Wc, cur: seq<Item>, x: Item)
    requires cur != [] && x.Word?
    ensures RowText(cur + [x]) == RowText(cur) + [SP] + x.bytes
    ensures RowCells(wc, cur + [x]) == RowCells(wc, cur) + 1 + Cost(wc, x)
  {
    assert (cur + [x])[..|cur|] == cur;
  }

  lemma TextsConcat(a: seq<seq<Item>>, b: seq<seq<Item>>)
    ensures Texts(a + b) == Texts(a) + Texts(b)
  {
  }

  lemma FlushRow(wc: Wc, width: nat, cur: seq<Item>, st: State)
    requires InProgress(wc, width, cur, st)
    ensures Flush(st).lines == st.lines + Texts(Close(cur)) && Flush(st).cells == 0
  {
    assert cur == [] ==> st.lines + [] == st.lines;
  }

  lemma {:induction false} RowsAreLines(wc: Wc, width: nat, cur: seq<Item>, st: State, items: seq<Item>)
    requires InProgress(wc, width, cur, st) && Ordinary(wc, width, items)
    ensures Flush(Fill(wc, width, st, items)).lines == st.lines + Texts(Rows(wc, width, cur, items))
    decreases |items|
  {
    hide Width, RowText, RowCells, Texts, InProgress;
    if items == [] {
      FlushRow(wc, width, cur, st);
    } else {
      var next := Step(wc, width, st, items[0]);
      var cur' := NextRow(wc, width, cur, items[0]);
      RowsStep(wc, width, cur, st, items[0]);
      RowsAreLines(wc, width, cur', next, items[1..]);
      RowsUnfold(wc, width, cur, items);
      var done := DoneRows(wc, width, cur, items[0]);
      TextsConcat(done, Rows(wc, width, cur', items[1..]));
      Assoc(st.lines, Texts(done), Texts(Rows(wc, width, cur', items[1..])));
    }
  }

  predicate Extends(wc: Wc, width: nat, cur: seq<Item>, x: Item) {
    x.Word? && cur != [] && RowCells(wc, cur) + 1 + Width(wc, x.bytes) <= width
  }

  function NextRow(wc: Wc, width: nat, cur: seq<Item>, x: Item): seq<Item> {
    if x.Blank? then [] else if Extends(wc, width, cur, x) then cur + [x] else [x]
  }

  function DoneRows(wc: Wc, width: nat, cur: seq<Item>, x: Item): seq<seq<Item>> {
    if x.Blank? then Close(cur) + [[Blank]] else if Extends(wc, width, cur, x) then [] else Close(cur)
  }

  lemma RowsUnfold(wc: Wc, width: nat, cur: seq<Item>, items: seq<Item>)
    requires items != []
    ensures Rows(wc, width, cur, items)
         == DoneRows(wc, width, cur, items[0]) + Rows(wc, width, NextRow(wc, width, cur, items[0]), items[1..])
  {
    hide RowCells, Width;
    var tail := Rows(wc, width, NextRow(wc, width, cur, items[0]), items[1..]);
    assert [] + tail == tail;
  }

  lemma RowsStep(wc: Wc, width: nat, cur: seq<Item>, st: State, x: Item)
    requires InProgress(wc, width, cur, st)
    requires x.Word? ==> 0 < Width(wc, x.bytes) <= width
    ensures InProgress(wc, width, NextRow(wc, width, cur, x), Step(wc, width, st, x))
    ensures Step(wc, width, st, x).lines == st.lines + Texts(DoneRows(wc, width, cur, x))
  {
    hide Width, CopyLen;
    if x.Blank? {
      RowsBlank(wc, width, cur, st);
    } else if Extends(wc, width, cur, x) {
      RowSnoc(wc, cur, x);
      assert st.lines + [] == st.lines;
    } else {
      RowsNew(wc, width, cur, st, x);
    }
  }

  lemma RowsBlank(wc: Wc, width: nat, cur: seq<Item>, st: State)
    requires InProgress(wc, width, cur, st)
    ensures InProgress(wc, width, [], Step(wc, width, st, Blank))
    ensures Step(wc, width, st, Blank).lines == st.lines + Texts(Close(cur) + [[Blank]])
  {
    hide Width;
    FlushRow(wc, width, cur, st);
    TextsConcat(Close(cur), [[Blank]]);
    assert Texts([[Blank]]) == [[]];
    Assoc(st.lines, Texts(Close(cur)), [[]]);
  }

  lemma RowsNew(wc: Wc, width: nat, cur: seq<Item>, st: State, x: Item)
    requires InProgress(wc, width, cur, st) && x.Word? && 0 < Width(wc, x.bytes) <= width
    requires !Extends(wc, width, cur, x)
    ensures InProgress(wc, width, [x], Step(wc, width, st, x))
    ensures Step(wc, width, st, x).lines == st.lines + Texts(Close(cur))
  {
    hide Width, CopyLen;
    FlushRow(wc, width, cur, st);
    assert Break(wc, width, x.bytes) == Broken([], x.bytes);
    assert Flush(st).lines + [] == Flush(st).lines;
  }

  /** The number of rows is what the counting function says. */
  lemma {:induction false} RowsCount(wc: Wc, width: nat, cur: seq<Item>, items: seq<Item>)
    requires forall i | 0 <= i < |cur| :: cur[i].Word? && 0 < Width(wc, cur[i].bytes)
    requires Ordinary(wc, width, items)
    ensures |Rows(wc, width, cur, items)| == Greedy(width, Costs(wc, items), RowCells(wc, cur))
    decreases |items|
  {
    hide Width;
    if items != [] {
      assert Costs(wc, items)[1..] == Costs(wc, items[1..]);
      if Extends(wc, width, cur, items[0]) {
        RowSnoc(wc, cur, items[0]);
      }
      RowsCount(wc, width, NextRow(wc, width, cur, items[0]), items[1..]);
    }
  }

  // ----- the theorems -------------------------------------------------------------------

  lemma LinesAreRows(wc: Wc, width: nat, text: Text)
    requires Ordinary(wc, width, Items(text))
    ensures Wrapped(wc, width, text) == Texts(Rows(wc, width, [], Items(text)))
  {
    hide Fill, Width;
    RowsAreLines(wc, width, [], START, Items(text));
    assert [] + Texts(Rows(wc, width, [], Items(text))) == Texts(Rows(wc, width, [], Items(text)));
  }

  lemma CostsSnocAdded(r: seq<nat>, x: nat)
    ensures Added(r + [x]) == Added(r) + 1 + x
  {
    if r == [] {
      assert ([] + [x])[1..] == [];
    } else {
      assert (r + [x])[1..] == r[1..] + [x];
      CostsSnocAdded(r[1..], x);
    }
  }

  /** A row of words that fits. */
  predicate GoodRow(wc: Wc, width: nat, cur: seq<Item>) {
    && (forall i | 0 <= i < |cur| :: cur[i].Word?)
    && Positive(Costs(wc, cur))
    && (cur != [] ==> Added(Costs(wc, cur)) == RowCells(wc, cur) + 1 <= width + 1)
  }

  lemma {:induction false} RowsLayout(wc: Wc, width: nat, cur: seq<Item>, items: seq<Item>)
    requires Ordinary(wc, width, items) && GoodRow(wc, width, cur)
    ensures IsLayout(wc, width, Rows(wc, width, cur, items), cur + items)
    decreases |items|
  {
    hide Width, GoodRow, DoneRows, NextRow, IsLayout, RowCells;
    if items == [] {
      CloseLayout(wc, width, cur);
      assert cur + [] == cur;
    } else {
      var x := items[0];
      var cur', done := NextRow(wc, width, cur, x), DoneRows(wc, width, cur, x);
      NextRowFits(wc, width, cur, x);
      RowsLayout(wc, width, cur', items[1..]);
      RowsUnfold(wc, width, cur, items);
      DoneRowsLayout(wc, width, cur, x);
      LayoutConcat(wc, width, done, cur, x, Rows(wc, width, cur', items[1..]), items[1..]);
      assert items == [x] + items[1..];
    }
  }

  lemma LayoutConcat(wc: Wc, width: nat, done: seq<seq<Item>>, cur: seq<Item>, x: Item,
                     rows: seq<seq<Item>>, rest: seq<Item>)
    requires Flatten(done) + NextRow(wc, width, cur, x) == cur + [x]
    requires forall i | 0 <= i < |done| :: FitsLine(width, Costs(wc, done[i]))
    requires IsLayout(wc, width, rows, NextRow(wc, width, cur, x) + rest)
    ensures IsLayout(wc, width, done + rows, cur + ([x] + rest))
  {
    hide FitsLine, Costs, NextRow;
    FlattenConcat(done, rows);
    Assoc(Flatten(done), NextRow(wc, width, cur, x), rest);
    Assoc(cur, [x], rest);
  }

  lemma NextRowFits(wc: Wc, width: nat, cur: seq<Item>, x: Item)
    requires x.Word? ==> 0 < Width(wc, x.bytes) <= width
    requires GoodRow(wc, width, cur)
    ensures GoodRow(wc, width, NextRow(wc, width, cur, x))
  {
    hide Width, GoodRow;
    if x.Blank? {
      NoRow(wc, width);
    } else if Extends(wc, width, cur, x) {
      ExtendedRow(wc, width, cur, x);
    } else {
      NewRow(wc, width, x);
    }
  }

  lemma NoRow(wc: Wc, width: nat)
    ensures GoodRow(wc, width, [])
  {
  }

  lemma ExtendedRow(wc: Wc, width: nat, cur: seq<Item>, x: Item)
    requires x.Word? && Width(wc, x.bytes) > 0 && GoodRow(wc, width, cur) && Extends(wc, width, cur, x)
    ensures GoodRow(wc, width, cur + [x])
  {
    hide Width, RowCells, Added;
    RowSnoc(wc, cur, x);
    assert Costs(wc, cur + [x]) == Costs(wc, cur) + [Cost(wc, x)];
    CostsSnocAdded(Costs(wc, cur), Cost(wc, x));
  }

  lemma NewRow(wc: Wc, width: nat, x: Item)
    requires x.Word? && 0 < Width(wc, x.bytes) <= width
    ensures GoodRow(wc, width, [x])
  {
    hide Width;
    var c := [Cost(wc, x)];
    assert Costs(wc, [x]) == c && c[1..] == [];
    assert Added(c) == 1 + Cost(wc, x) + Added([]);
  }

  lemma CloseLayout(wc: Wc, width: nat, cur: seq<Item>)
    requires GoodRow(wc, width, cur)
    ensures IsLayout(wc, width, Close(cur), cur)
  {
    if cur != [] {
      assert Close(cur)[1..] == [];
    }
  }

  lemma DoneRowsLayout(wc: Wc, width: nat, cur: seq<Item>, x: Item)
    requires GoodRow(wc, width, cur)
    ensures var done := DoneRows(wc, width, cur, x);
            && Flatten(done) + NextRow(wc, width, cur, x) == cur + [x]
            && forall i | 0 <= i < |done| :: FitsLine(width, Costs(wc, done[i]))
  {
    hide Width, GoodRow;
    CloseLayout(wc, width, cur);
    assert Costs(wc, [Blank]) == [0];
    FlattenSnoc(Close(cur), [Blank]);
  }

  /** The lines, row by row, are a layout of the items ... */
  lemma LinesAreLayout(wc: Wc, width: nat, text: Text)
    requires Ordinary(wc, width, Items(text))
    ensures var rows := Rows(wc, width, [], Items(text));
            IsLayout(wc, width, rows, Items(text)) && Wrapped(wc, width, text) == Texts(rows)
  {
    hide Width, Wrapped, Items, Rows, IsLayout;
    LinesAreRows(wc, width, text);
    RowsLayout(wc, width, [], Items(text));
    assert [] + Items(text) == Items(text);
  }

  /** ... and no layout of the items in lines that fit takes fewer lines. */
  lemma WrapOptimal(wc: Wc, width: nat, text: Text, rows: seq<seq<Item>>)
    requires Ordinary(wc, width, Items(text)) && IsLayout(wc, width, rows, Items(text))
    ensures |Wrapped(wc, width, text)| <= |rows|
  {
    hide Width, Wrapped, Items, Rows, Greedy;
    LinesAreRows(wc, width, text);
    RowsCount(wc, width, [], Items(text));
    CostsFlatten(wc, rows);
    GreedyMinimal(width, Costs(wc, Items(text)), RowCosts(wc, rows));
  }
}
