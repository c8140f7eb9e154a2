/** feedlist.c: the pane object, its loops, and that they compute the specified steps. */
module SidebarCode {
  import opened Bytes
  import opened Ranks
  import opened Sidebar
  import opened SidebarBuild

  /** Outcome of a server request. */
  datatype Fetched<T> = Got(value: T) | Failed

  class Pane {
    var items: seq<Item>
    var sel: int
    var top: int
    var rows: int

    ghost function Now(): State
      reads this
    {
      State(items, sel, top, rows)
    }

    constructor (r: int)
      ensures Now() == State([], 0, 0, r)
    {
      items, sel, top, rows := [], 0, 0, r;
    }

    // ----- reading ----------------------------------------------------------------

    method ItemVisible(idx: nat) returns (v: bool)
      requires idx < |items|
      ensures v == Visible(items, idx)
    {
      if items[idx].depth <= 0 {
        return true;
      }
      var j := idx;
      while j > 0
        invariant j <= idx && RootBefore(items, j) == RootBefore(items, idx)
      {
        j := j - 1;
        if items[j].depth == 0 {
          return if items[j].isCat then items[j].expanded else true;
        }
      }
      return true;
    }

    method VisibleRow(idx: int) returns (v: nat)
      ensures v == VisiblePos(items, idx)
    {
      hide Visible;
      v := 0;
      var i := 0;
      while i < idx && i < |items|
        invariant 0 <= i <= Clamp(idx, 0, |items|) && v == Count(Shown(items), i)
      {
        var shown := ItemVisible(i);
        if shown {
          v := v + 1;
        }
        i := i + 1;
      }
    }

    method ItemAtRow(row: int) returns (r: int)
      ensures r == ItemAtVisible(items, row)
    {
      hide Visible;
      var v, i := 0, 0;
      while i < |items|
        invariant i <= |items| && v == Count(Shown(items), i)
        invariant row < 0 || (v <= row && NthFrom(Shown(items), row - v, i) == Nth(Shown(items), row))
      {
        var shown := ItemVisible(i);
        if shown {
          if v == row {
            return i;
          }
          v := v + 1;
        }
        i := i + 1;
      }
      return |items| - 1;
    }

    method NextChoice(from: int, dir: int) returns (r: int)
      requires dir == 1 || dir == -1
      ensures r == NextSelectable(items, from, dir)
    {
      hide Visible;
      var i := from;
      while 0 <= i < |items|
        invariant NextSelectable(items, i, dir) == NextSelectable(items, from, dir)
        decreases if dir == 1 then |items| - i else i
      {
        if items[i].kind == Entry {
          var shown := ItemVisible(i);
          if shown {
            return i;
          }
        }
        i := i + dir;
      }
      return -1;
    }

    // ----- moving --------------------------------------------------------------------

    method ClampView()
      modifies this`top
      ensures Now() == ClampTop(old(Now()))
    {
      hide VisiblePos, ItemAtVisible;
      if rows <= 0 {
        return;
      }
      var s := VisibleRow(sel);
      var t := VisibleRow(top);
      if s < t {
        top := sel;
      } else if s >= t + rows {
        top := ItemAtRow(s - rows + 1);
      }
    }

    method MoveBy(delta: int)
      modifies this`sel, this`top
      ensures Now() == Move(old(Now()), delta)
    {
      hide NextSelectable, ClampTop;
      if |items| == 0 {
        return;
      }
      var dir := if delta > 0 then 1 else -1;
      var count := if delta > 0 then delta else -delta;
      var idx, n := sel, 0;
      while n < count
        invariant n <= count && Now() == old(Now())
        invariant Advance(items, idx, dir, count - n) == Advance(items, sel, dir, count)
      {
        var next := NextChoice(idx + dir, dir);
        if next < 0 {
          break;
        }
        idx := next;
        n := n + 1;
      }
      assert idx == if delta > 0 then Advance(items, sel, 1, delta) else Advance(items, sel, -1, -delta);
      if idx < 0 {
        return;
      }
      sel := idx;
      ClampView();
    }

    method GoHome()
      modifies this`sel, this`top
      ensures Now() == Home(old(Now()))
    {
      hide NextSelectable;
      var first := NextChoice(0, 1);
      if first >= 0 {
        sel := first;
      }
      top := 0;
    }

    method GoEnd()
      modifies this`sel, this`top
      ensures Now() == End(old(Now()))
    {
      hide NextSelectable, ClampTop;
      var last := NextChoice(|items| - 1, -1);
      if last >= 0 {
        sel := last;
      }
      ClampView();
    }

    /** Returns whether the selected item was a category, which is then opened or closed. */
    method ActivateCategory() returns (toggled: bool)
      modifies this`items
      ensures Now() == Activate(old(Now()))
      ensures toggled <==> 0 <= sel < |old(items)| && old(items)[sel].isCat
    {
      if 0 <= sel < |items| && items[sel].isCat {
        items := items[sel := items[sel].(expanded := !items[sel].expanded)];
        return true;
      }
      return false;
    }

    // ----- loading -----------------------------------------------------------------------

    method AddItem(item: Item)
      modifies this`items
      ensures items == old(items) + [item]
    {
      items := items + [item];
    }

    /** The loop over the virtual feeds, or over the labels. */
    method AddGroup(ghost cats: seq<Category>, feeds: seq<Feed>, g: Group)
      modifies this`items
      ensures items == old(items) + ItemsOf(cats, feeds, GroupPart(feeds, g, 0, false))
    {
      hide Belongs;
      var any, i := false, 0;
      ghost var base, all := items, GroupPart(feeds, g, 0, false);
      ghost var done: seq<Origin> := [];
      while i < |feeds|
        invariant i <= |feeds| && items == base + ItemsOf(cats, feeds, done)
        invariant done + GroupPart(feeds, g, i, any) == all
      {
        if Belongs(g, feeds[i]) {
          ghost var head: seq<Origin> := if any then [] else [Header(TitleOf(g))];
          if !any {
            AddItem(Item(Section, FromVirtual, 0, TitleOf(g), 0, 0, false, true));
            any := true;
          }
          AddItem(Item(Entry, SourceOf(g), feeds[i].id, feeds[i].title, feeds[i].unread, 0, false, true));
          ghost var here := OfFeed(i, SourceOf(g), 0);
          ItemsConcat(cats, feeds, base, done, head);
          ItemsConcat(cats, feeds, base, done + head, [here]);
          Assoc(done, head, [here]);
          Assoc(done, head + [here], GroupPart(feeds, g, i + 1, true));
          done := done + (head + [here]);
        }
        i := i + 1;
      }
      assert done + [] == done;
    }

    /** The inner loop: the feeds of one category. */
    method AddFeeds(ghost cats: seq<Category>, feeds: seq<Feed>, cat: Category)
      modifies this`items
      ensures items == old(items) + ItemsOf(cats, feeds, FeedPart(feeds, cat, 0))
    {
      hide FeedOf;
      var f := 0;
      ghost var base := items;
      ghost var done: seq<Origin> := [];
      while f < |feeds|
        invariant f <= |feeds| && items == base + ItemsOf(cats, feeds, done)
        invariant done + FeedPart(feeds, cat, f) == FeedPart(feeds, cat, 0)
      {
        ghost var here: seq<Origin> := if FeedOf(cat, feeds[f]) then [OfFeed(f, FromFeed, 1)] else [];
        if FeedOf(cat, feeds[f]) {
          AddItem(Item(Entry, FromFeed, feeds[f].id, feeds[f].title, feeds[f].unread, 1, false, true));
        }
        ItemsConcat(cats, feeds, base, done, here);
        Assoc(done, here, FeedPart(feeds, cat, f + 1));
        done := done + here;
        f := f + 1;
      }
      assert done + [] == done;
    }

    /** The loop over the categories. */
    method AddCategories(cats: seq<Category>, feeds: seq<Feed>)
      modifies this`items
      ensures items == old(items) + ItemsOf(cats, feeds, CategoryPart(cats, feeds, 0))
    {
      var c := 0;
      ghost var base := items;
      ghost var done: seq<Origin> := [];
      while c < |cats|
        invariant c <= |cats| && items == base + ItemsOf(cats, feeds, done)
        invariant done + CategoryPart(cats, feeds, c) == CategoryPart(cats, feeds, 0)
      {
        ghost var here := if cats[c].id < 0 then [] else [OfCategory(c)] + FeedPart(feeds, cats[c], 0);
        if cats[c].id >= 0 {
          AddItem(Item(Entry, FromCategory, cats[c].id, cats[c].title, cats[c].unread, 0, true, true));
          AddFeeds(cats, feeds, cats[c]);
          ItemsConcat(cats, feeds, base + ItemsOf(cats, feeds, done), [OfCategory(c)], FeedPart(feeds, cats[c], 0));
          assert ItemsOf(cats, feeds, [OfCategory(c)]) == [ItemOf(cats, feeds, OfCategory(c))];
        }
        ItemsConcat(cats, feeds, base, done, here);
        Assoc(done, here, CategoryPart(cats, feeds, c + 1));
        done := done + here;
        c := c + 1;
      }
      assert done + [] == done;
    }

    /** Fetch categories, then feeds, and rebuild the list; a failure leaves it empty. */
    method Load(cats: Fetched<seq<Category>>, feeds: Fetched<seq<Feed>>) returns (ok: bool)
      modifies this
      ensures ok <==> cats.Got? && feeds.Got?
      ensures ok ==> Now() == Loaded(old(Now()), Built(cats.value, feeds.value))
      ensures !ok ==> Now() == old(Now()).(items := [])
    {
      hide GroupPart, CategoryPart;
      items := [];
      if cats.Failed? || feeds.Failed? {
        return false;
      }
      var cs, fs := cats.value, feeds.value;
      ghost var v, l := GroupPart(fs, VirtualFeeds, 0, false), GroupPart(fs, Labels, 0, false);
      ghost var c := CategoryPart(cs, fs, 0);
      AddGroup(cs, fs, VirtualFeeds);
      AddGroup(cs, fs, Labels);
      AddItem(Item(Section, FromVirtual, 0, "Feeds", 0, 0, false, true));
      AddCategories(cs, fs);
      BuiltParts(cs, fs, v, l, c);
      sel := -1;
      var i := 0;
      while i < |items|
        invariant i <= |items| && FirstEntry(items, i) == FirstEntry(items, 0) && sel == -1
      {
        if items[i].kind == Entry {
          sel := i;
          break;
        }
        i := i + 1;
      }
      top := 0;
      return true;
    }
  }

  lemma ItemsConcat(cats: seq<Category>, feeds: seq<Feed>, base: seq<Item>, a: seq<Origin>, b: seq<Origin>)
    ensures base + ItemsOf(cats, feeds, a) + ItemsOf(cats, feeds, b) == base + ItemsOf(cats, feeds, a + b)
    ensures forall o :: ItemsOf(cats, feeds, [o]) == [ItemOf(cats, feeds, o)]
    ensures ItemsOf(cats, feeds, []) == []
  {
    assert ItemsOf(cats, feeds, a + b) == ItemsOf(cats, feeds, a) + ItemsOf(cats, feeds, b);
  }

  lemma BuiltParts(cats: seq<Category>, feeds: seq<Feed>, v: seq<Origin>, l: seq<Origin>, c: seq<Origin>)
    requires v == GroupPart(feeds, VirtualFeeds, 0, false) && l == GroupPart(feeds, Labels, 0, false)
    requires c == CategoryPart(cats, feeds, 0)
    ensures [] + ItemsOf(cats, feeds, v) + ItemsOf(cats, feeds, l) + [ItemOf(cats, feeds, Header("Feeds"))]
            + ItemsOf(cats, feeds, c)
         == Built(cats, feeds)
  {
    hide GroupPart, CategoryPart, ItemOf;
    var h: seq<Origin> := [Header("Feeds")];
    ItemsConcat(cats, feeds, [], v, l);
    ItemsConcat(cats, feeds, ItemsOf(cats, feeds, v + l), h, c);
    ItemsConcat(cats, feeds, [], v + l, h + c);
    assert [] + ItemsOf(cats, feeds, v + l) == ItemsOf(cats, feeds, v + l);
  }
}
