/** Building the sidebar list from the server's categories and feeds. */
module SidebarBuild {
  import opened Sidebar

  datatype Category = Category(id: int, title: string, unread: int)

  datatype Feed = Feed(id: int, title: string, catId: int, unread: int, isCat: bool)

  const CATEGORY_SPECIAL := -1
  const CATEGORY_LABELS := -2

  /** Ids of the server's built-in views. */
  predicate IsVirtualId(id: int) { id == 0 || id == -1 || id == -2 || id == -3 || id == -4 || id == -6 }

  datatype Group = VirtualFeeds | Labels

  predicate Belongs(g: Group, f: Feed) {
    match g
    case VirtualFeeds => f.catId == CATEGORY_SPECIAL || (f.catId == 0 && IsVirtualId(f.id))
    case Labels => f.catId == CATEGORY_LABELS
  }

  /** An ordinary feed of a category. */
  predicate FeedOf(c: Category, f: Feed) { f.catId == c.id && f.id > 0 && !f.isCat }

  /** Where a list item comes from: a header, the feed or the category at an index. */
  datatype Origin = Header(title: string) | OfFeed(f: nat, source: Source, depth: nat) | OfCategory(c: nat)

  function SourceOf(g: Group): Source { if g.VirtualFeeds? then FromVirtual else FromLabel }

  function TitleOf(g: Group): string { if g.VirtualFeeds? then "Virtual feeds" else "Labels" }

  /** The feeds of a group from index `i` on, headed unless a header is there already. */
  function GroupPart(feeds: seq<Feed>, g: Group, i: nat, any: bool): seq<Origin>
    decreases |feeds| - i
  {
    if i >= |feeds| then []
    else if Belongs(g, feeds[i]) then
      (if any then [] else [Header(TitleOf(g))]) + [OfFeed(i, SourceOf(g), 0)] + GroupPart(feeds, g, i + 1, true)
    else GroupPart(feeds, g, i + 1, any)
  }

  function FeedPart(feeds: seq<Feed>, c: Category, i: nat): seq<Origin>
    decreases |feeds| - i
  {
    if i >= |feeds| then []
    else (if FeedOf(c, feeds[i]) then [OfFeed(i, FromFeed, 1)] else []) + FeedPart(feeds, c, i + 1)
  }

  function CategoryPart(cats: seq<Category>, feeds: seq<Feed>, c: nat): seq<Origin>
    decreases |cats| - c
  {
    if c >= |cats| then []
    else
      (if cats[c].id < 0 then [] else [OfCategory(c)] + FeedPart(feeds, cats[c], 0))
      + CategoryPart(cats, feeds, c + 1)
  }

  /** The list as origins: virtual feeds, labels, then categories with their feeds. */
  function Outline(cats: seq<Category>, feeds: seq<Feed>): seq<Origin> {
    GroupPart(feeds, VirtualFeeds, 0, false) + GroupPart(feeds, Labels, 0, false)
    + ([Header("Feeds")] + CategoryPart(cats, feeds, 0))
  }

  function ItemOf(cats: seq<Category>, feeds: seq<Feed>, o: Origin): Item {
    match o
    case Header(title) => Item(Section, FromVirtual, 0, title, 0, 0, false, true)
    case OfFeed(f, source, depth) =>
      if f < |feeds| then Item(Entry, source, feeds[f].id, feeds[f].title, feeds[f].unread, depth, false, true)
      else Item(Section, FromVirtual, 0, "", 0, 0, false, true)
    case OfCategory(c) =>
      if c < |cats| then Item(Entry, FromCategory, cats[c].id, cats[c].title, cats[c].unread, 0, true, true)
      else Item(Section, FromVirtual, 0, "", 0, 0, false, true)
  }

  function ItemsOf(cats: seq<Category>, feeds: seq<Feed>, os: seq<Origin>): (items: seq<Item>)
    ensures |items| == |os| && forall i | 0 <= i < |os| :: items[i] == ItemOf(cats, feeds, os[i])
  {
    seq(|os|, i requires 0 <= i < |os| => ItemOf(cats, feeds, os[i]))
  }

  function Built(cats: seq<Category>, feeds: seq<Feed>): seq<Item> {
    ItemsOf(cats, feeds, Outline(cats, feeds))
  }

  // ----- feeds by position ------------------------------------------------------

  /** The feed indexes of a list of origins, in order. */
  function FeedsIn(os: seq<Origin>): seq<nat> {
    if os == [] then [] else (if os[0].OfFeed? then [os[0].f] else []) + FeedsIn(os[1..])
  }

  lemma {:induction false} FeedsInConcat(a: seq<Origin>, b: seq<Origin>)
    ensures FeedsIn(a + b) == FeedsIn(a) + FeedsIn(b)
  {
    if a == [] {
      assert a + b == b;
    } else {
      assert (a + b)[1..] == a[1..] + b;
      FeedsInConcat(a[1..], b);
      var own: seq<nat> := if a[0].OfFeed? then [a[0].f] else [];
      assert own + (FeedsIn(a[1..]) + FeedsIn(b)) == own + FeedsIn(a[1..]) + FeedsIn(b);
    }
  }

  predicate Distinct(s: seq<nat>) { forall i, j | 0 <= i < j < |s| :: s[i] != s[j] }

  lemma DistinctConcat(a: seq<nat>, b: seq<nat>)
    requires Distinct(a) && Distinct(b) && forall x <- a :: x !in b
    ensures Distinct(a + b)
  {
    var s := a + b;
    forall i, j | 0 <= i < j < |s|
      ensures s[i] != s[j]
    {
      if i < |a| <= j {
        assert s[i] == a[i] && a[i] in a && s[j] == b[j - |a|];
      }
    }
  }

  lemma {:induction false} GroupFeeds(feeds: seq<Feed>, g: Group, i: nat, any: bool)
    requires i <= |feeds|
    ensures Distinct(FeedsIn(GroupPart(feeds, g, i, any)))
    ensures forall x :: x in FeedsIn(GroupPart(feeds, g, i, any)) <==> i <= x < |feeds| && Belongs(g, feeds[x])
    decreases |feeds| - i
  {
    hide Belongs;
    if i < |feeds| {
      GroupFeeds(feeds, g, i + 1, if Belongs(g, feeds[i]) then true else any);
      if Belongs(g, feeds[i]) {
        var rest := GroupPart(feeds, g, i + 1, true);
        var head := (if any then [] else [Header(TitleOf(g))]) + [OfFeed(i, SourceOf(g), 0)];
        HeadFeeds(if any then [] else [Header(TitleOf(g))], OfFeed(i, SourceOf(g), 0));
        FeedsInConcat(head, rest);
        DistinctConcat([i], FeedsIn(rest));
      }
    }
  }

  lemma HeadFeeds(h: seq<Origin>, o: Origin)
    requires o.OfFeed? && (h == [] || (|h| == 1 && !h[0].OfFeed?))
    ensures FeedsIn(h + [o]) == [o.f]
  {
    FeedsInConcat(h, [o]);
    assert [o][1..] == [];
    if h != [] {
      assert h[1..] == [];
    }
  }

  lemma {:induction false} PartFeeds(feeds: seq<Feed>, c: Category, i: nat)
    requires i <= |feeds|
    ensures Distinct(FeedsIn(FeedPart(feeds, c, i)))
    ensures forall x :: x in FeedsIn(FeedPart(feeds, c, i)) <==> i <= x < |feeds| && FeedOf(c, feeds[x])
    decreases |feeds| - i
  {
    hide FeedOf;
    if i < |feeds| {
      PartFeeds(feeds, c, i + 1);
      var rest := FeedPart(feeds, c, i + 1);
      if FeedOf(c, feeds[i]) {
        FeedsInConcat([OfFeed(i, FromFeed, 1)], rest);
        HeadFeeds([], OfFeed(i, FromFeed, 1));
        assert [] + [OfFeed(i, FromFeed, 1)] == [OfFeed(i, FromFeed, 1)];
        DistinctConcat([i], FeedsIn(rest));
      } else {
        assert [] + rest == rest;
      }
    }
  }

  predicate DistinctCategories(cats: seq<Category>) {
    forall i, j | 0 <= i < j < |cats| :: cats[i].id != cats[j].id
  }

  /** Listed below a category shown from index `c` on. */
  predicate Listed(cats: seq<Category>, feeds: seq<Feed>, c: nat, x: int) {
    0 <= x < |feeds| && exists k | c <= k < |cats| :: cats[k].id >= 0 && FeedOf(cats[k], feeds[x])
  }

  lemma {:induction false} CategoryFeeds(cats: seq<Category>, feeds: seq<Feed>, c: nat)
    requires c <= |cats|
    ensures forall x :: x in FeedsIn(CategoryPart(cats, feeds, c)) <==> Listed(cats, feeds, c, x)
    ensures DistinctCategories(cats) ==> Distinct(FeedsIn(CategoryPart(cats, feeds, c)))
    decreases |cats| - c
  {
    if c < |cats| {
      CategoryFeeds(cats, feeds, c + 1);
      var rest := CategoryPart(cats, feeds, c + 1);
      forall x
        ensures Listed(cats, feeds, c, x) <==>
          Listed(cats, feeds, c + 1, x) || (cats[c].id >= 0 && 0 <= x < |feeds| && FeedOf(cats[c], feeds[x]))
      {
        ListedStep(cats, feeds, c, x);
      }
      if cats[c].id < 0 {
        assert [] + rest == rest;
      } else {
        CategoryHead(feeds, cats[c], c, rest);
        PartFeeds(feeds, cats[c], 0);
        if DistinctCategories(cats) {
          NotListedAgain(cats, feeds, c);
          DistinctConcat(FeedsIn(FeedPart(feeds, cats[c], 0)), FeedsIn(rest));
        }
      }
    }
  }

  lemma CategoryHead(feeds: seq<Feed>, cat: Category, c: nat, rest: seq<Origin>)
    ensures FeedsIn([OfCategory(c)] + FeedPart(feeds, cat, 0) + rest)
         == FeedsIn(FeedPart(feeds, cat, 0)) + FeedsIn(rest)
  {
    FeedsInConcat([OfCategory(c)] + FeedPart(feeds, cat, 0), rest);
    FeedsInConcat([OfCategory(c)], FeedPart(feeds, cat, 0));
    assert [OfCategory(c)][1..] == [];
    assert FeedsIn([OfCategory(c)]) == [];
  }

  lemma ListedStep(cats: seq<Category>, feeds: seq<Feed>, c: nat, x: int)
    requires c < |cats|
    ensures Listed(cats, feeds, c, x) <==>
      Listed(cats, feeds, c + 1, x) || (cats[c].id >= 0 && 0 <= x < |feeds| && FeedOf(cats[c], feeds[x]))
  {
    hide FeedOf;
  }

  lemma NotListedAgain(cats: seq<Category>, feeds: seq<Feed>, c: nat)
    requires c < |cats| && DistinctCategories(cats)
    ensures forall x | 0 <= x < |feeds| && FeedOf(cats[c], feeds[x]) :: !Listed(cats, feeds, c + 1, x)
  {
  }

  // ----- the theorems --------------------------------------------------------------

  /** With distinct category ids no feed appears twice, in whatever section. */
  lemma NoFeedTwice(cats: seq<Category>, feeds: seq<Feed>)
    requires DistinctCategories(cats)
    ensures Distinct(FeedsIn(Outline(cats, feeds)))
  {
    var v, l := GroupPart(feeds, VirtualFeeds, 0, false), GroupPart(feeds, Labels, 0, false);
    var c := CategoryPart(cats, feeds, 0);
    GroupFeeds(feeds, VirtualFeeds, 0, false);
    GroupFeeds(feeds, Labels, 0, false);
    CategoryFeeds(cats, feeds, 0);
    OutlineFeeds(cats, feeds);
    DistinctConcat(FeedsIn(v), FeedsIn(l));
    DistinctConcat(FeedsIn(v) + FeedsIn(l), FeedsIn(c));
  }

  lemma OutlineFeeds(cats: seq<Category>, feeds: seq<Feed>)
    ensures FeedsIn(Outline(cats, feeds))
         == FeedsIn(GroupPart(feeds, VirtualFeeds, 0, false)) + FeedsIn(GroupPart(feeds, Labels, 0, false))
            + FeedsIn(CategoryPart(cats, feeds, 0))
  {
    var v, l := GroupPart(feeds, VirtualFeeds, 0, false), GroupPart(feeds, Labels, 0, false);
    var c := CategoryPart(cats, feeds, 0);
    var h: seq<Origin> := [Header("Feeds")];
    FeedsInConcat(v + l, h + c);
    FeedsInConcat(v, l);
    FeedsInConcat(h, c);
    assert h[1..] == [] && FeedsIn(h) == [];
  }

  /**
   * A feed appears exactly when it is virtual, a label, or an ordinary feed of a category that is listed; the
   * server's numbers say which.
   */
  lemma FeedsShown(cats: seq<Category>, feeds: seq<Feed>, x: nat)
    requires x < |feeds|
    ensures var f := feeds[x];
            x in FeedsIn(Outline(cats, feeds)) <==>
              || f.catId == -1
              || (f.catId == 0 && f.id in {0, -1, -2, -3, -4, -6})
              || f.catId == -2
              || (f.id > 0 && !f.isCat && exists k | 0 <= k < |cats| :: cats[k].id >= 0 && cats[k].id == f.catId)
  {
    hide Outline;
    GroupFeeds(feeds, VirtualFeeds, 0, false);
    GroupFeeds(feeds, Labels, 0, false);
    CategoryFeeds(cats, feeds, 0);
    OutlineFeeds(cats, feeds);
  }

  // ----- parents -----------------------------------------------------------------------

  /** Every indented feed has its own category as nearest item of depth 0 above it. */
  predicate WellParented(cats: seq<Category>, feeds: seq<Feed>, os: seq<Origin>) {
    forall i | 0 <= i < |os| && os[i].OfFeed? && os[i].depth != 0 :: ParentOk(cats, feeds, os, i)
  }

  predicate ParentOk(cats: seq<Category>, feeds: seq<Feed>, os: seq<Origin>, i: nat)
    requires i < |os| && os[i].OfFeed?
  {
    var r := RootBefore(ItemsOf(cats, feeds, os), i);
    && os[i].f < |feeds| && r >= 0 && os[r].OfCategory? && os[r].c < |cats|
    && cats[os[r].c].id == feeds[os[i].f].catId
  }

  lemma {:induction false} RootConcat(a: seq<Item>, b: seq<Item>, i: nat)
    requires i <= |b|
    ensures RootBefore(b, i) >= 0 ==> RootBefore(a + b, |a| + i) == |a| + RootBefore(b, i)
  {
    if i > 0 {
      RootConcat(a, b, i - 1);
    }
  }

  lemma {:induction false} RootPrefix(a: seq<Item>, b: seq<Item>, i: nat)
    requires i <= |a|
    ensures RootBefore(a + b, i) == RootBefore(a, i)
  {
    if i > 0 {
      RootPrefix(a, b, i - 1);
    }
  }

  lemma ParentedConcat(cats: seq<Category>, feeds: seq<Feed>, a: seq<Origin>, b: seq<Origin>)
    requires WellParented(cats, feeds, a) && WellParented(cats, feeds, b)
    ensures WellParented(cats, feeds, a + b)
  {
    hide ParentOk;
    var s := a + b;
    forall i | 0 <= i < |s| && s[i].OfFeed? && s[i].depth != 0
      ensures ParentOk(cats, feeds, s, i)
    {
      if i < |a| {
        ParentLeft(cats, feeds, a, b, i);
      } else {
        assert s[i] == b[i - |a|];
        ParentRight(cats, feeds, a, b, i - |a|);
      }
    }
  }

  lemma ParentLeft(cats: seq<Category>, feeds: seq<Feed>, a: seq<Origin>, b: seq<Origin>, i: nat)
    requires i < |a| && a[i].OfFeed? && ParentOk(cats, feeds, a, i)
    ensures ParentOk(cats, feeds, a + b, i)
  {
    hide RootBefore;
    assert ItemsOf(cats, feeds, a + b) == ItemsOf(cats, feeds, a) + ItemsOf(cats, feeds, b);
    RootPrefix(ItemsOf(cats, feeds, a), ItemsOf(cats, feeds, b), i);
  }

  lemma ParentRight(cats: seq<Category>, feeds: seq<Feed>, a: seq<Origin>, b: seq<Origin>, i: nat)
    requires i < |b| && b[i].OfFeed? && ParentOk(cats, feeds, b, i)
    ensures ParentOk(cats, feeds, a + b, |a| + i)
  {
    hide RootBefore;
    assert ItemsOf(cats, feeds, a + b) == ItemsOf(cats, feeds, a) + ItemsOf(cats, feeds, b);
    RootConcat(ItemsOf(cats, feeds, a), ItemsOf(cats, feeds, b), i);
  }

  lemma {:induction false} GroupFlat(feeds: seq<Feed>, g: Group, i: nat, any: bool)
    ensures forall o <- GroupPart(feeds, g, i, any) :: o.Header? || (o.OfFeed? && o.depth == 0 && o.f < |feeds|)
    decreases |feeds| - i
  {
    hide Belongs;
    if i < |feeds| {
      GroupFlat(feeds, g, i + 1, if Belongs(g, feeds[i]) then true else any);
    }
  }

  lemma {:induction false} PartDeep(feeds: seq<Feed>, c: Category, i: nat)
    ensures forall o <- FeedPart(feeds, c, i) :: o.OfFeed? && o.depth == 1 && o.f < |feeds| && FeedOf(c, feeds[o.f])
    decreases |feeds| - i
  {
    hide FeedOf;
    if i < |feeds| {
      PartDeep(feeds, c, i + 1);
    }
  }

  lemma {:induction false} RootIsFirst(items: seq<Item>, i: nat)
    requires 0 < i <= |items| && items[0].depth == 0 && forall j | 0 < j < i :: items[j].depth != 0
    ensures RootBefore(items, i) == 0
  {
    if i > 1 {
      RootIsFirst(items, i - 1);
    }
  }

  lemma CategoryBlock(cats: seq<Category>, feeds: seq<Feed>, c: nat)
    requires c < |cats|
    ensures WellParented(cats, feeds, [OfCategory(c)] + FeedPart(feeds, cats[c], 0))
  {
    hide RootBefore;
    var os := [OfCategory(c)] + FeedPart(feeds, cats[c], 0);
    PartDeep(feeds, cats[c], 0);
    var items := ItemsOf(cats, feeds, os);
    forall j | 0 < j < |os|
      ensures items[j].depth == 1 && os[j].f < |feeds| && FeedOf(cats[c], feeds[os[j].f])
    {
      assert os[j] in FeedPart(feeds, cats[c], 0);
    }
    forall i | 0 <= i < |os| && os[i].OfFeed? && os[i].depth != 0
      ensures ParentOk(cats, feeds, os, i)
    {
      RootIsFirst(items, i);
    }
  }

  lemma {:induction false} CategoryParented(cats: seq<Category>, feeds: seq<Feed>, c: nat)
    ensures WellParented(cats, feeds, CategoryPart(cats, feeds, c))
    decreases |cats| - c
  {
    hide WellParented;
    if c < |cats| {
      CategoryParented(cats, feeds, c + 1);
      var rest := CategoryPart(cats, feeds, c + 1);
      if cats[c].id < 0 {
        assert [] + rest == rest;
      } else {
        CategoryBlock(cats, feeds, c);
        ParentedConcat(cats, feeds, [OfCategory(c)] + FeedPart(feeds, cats[c], 0), rest);
      }
    } else {
      NothingParented(cats, feeds, []);
    }
  }

  lemma NothingParented(cats: seq<Category>, feeds: seq<Feed>, os: seq<Origin>)
    requires forall o <- os :: o.Header? || (o.OfFeed? && o.depth == 0)
    ensures WellParented(cats, feeds, os)
  {
  }

  lemma OutlineParented(cats: seq<Category>, feeds: seq<Feed>)
    ensures WellParented(cats, feeds, Outline(cats, feeds))
  {
    hide WellParented;
    var v, l := GroupPart(feeds, VirtualFeeds, 0, false), GroupPart(feeds, Labels, 0, false);
    var c := CategoryPart(cats, feeds, 0);
    GroupFlat(feeds, VirtualFeeds, 0, false);
    GroupFlat(feeds, Labels, 0, false);
    NothingParented(cats, feeds, v);
    NothingParented(cats, feeds, l);
    NothingParented(cats, feeds, [Header("Feeds")]);
    CategoryParented(cats, feeds, 0);
    ParentedConcat(cats, feeds, v, l);
    ParentedConcat(cats, feeds, [Header("Feeds")], c);
    ParentedConcat(cats, feeds, v + l, [Header("Feeds")] + c);
  }

  /** The same list up to what opening and closing categories changes. */
  predicate SameTree(a: seq<Item>, b: seq<Item>) {
    |a| == |b| && forall i | 0 <= i < |a| :: a[i] == b[i].(expanded := a[i].expanded)
  }

  /** An indented feed is hidden exactly when the category named by its own `cat_id` is collapsed. */
  lemma HiddenWithItsCategory(cats: seq<Category>, feeds: seq<Feed>, items: seq<Item>, i: nat)
    requires SameTree(items, Built(cats, feeds)) && i < |items| && items[i].depth > 0
    ensures var o := Outline(cats, feeds)[i]; var r := RootBefore(items, i);
            && o.OfFeed? && o.f < |feeds| && items[i].id == feeds[o.f].id
            && 0 <= r < i && items[r].isCat && items[r].id == feeds[o.f].catId
            && (Visible(items, i) <==> items[r].expanded)
  {
    hide RootBefore, Outline;
    OutlineParented(cats, feeds);
    var os := Outline(cats, feeds);
    assert items[i].depth == ItemOf(cats, feeds, os[i]).depth;
    assert ParentOk(cats, feeds, os, i);
    RootSame(items, Built(cats, feeds), i);
  }

  /** Until the next load, a run changes a built list only by opening and closing categories. */
  lemma {:induction false} RunKeepsTree(s: State, built: seq<Item>, ops: seq<Op>)
    requires SameTree(s.items, built) && forall op <- ops :: !op.Load? && !op.LoadFails?
    ensures SameTree(Run(s, ops).items, built)
    decreases |ops|
  {
    hide SameTree, Apply;
    if ops != [] {
      ApplyKeepsTree(s, built, ops[0]);
      RunKeepsTree(Apply(s, ops[0]), built, ops[1..]);
    }
  }

  lemma ApplyKeepsTree(s: State, built: seq<Item>, op: Op)
    requires SameTree(s.items, built) && !op.Load? && !op.LoadFails?
    ensures SameTree(Apply(s, op).items, built)
  {
  }

  // ----- the shape the cursor relies on ---------------------------------------------------

  lemma {:induction false} GroupHead(feeds: seq<Feed>, g: Group, i: nat)
    ensures var os := GroupPart(feeds, g, i, false);
            os == [] || (|os| >= 2 && os[0].Header? && os[1].OfFeed? && os[1].f < |feeds| && os[1].depth == 0)
    decreases |feeds| - i
  {
    hide Belongs;
    if i < |feeds| {
      if Belongs(g, feeds[i]) {
        var os := GroupPart(feeds, g, i, false);
        assert os == [Header(TitleOf(g))] + [OfFeed(i, SourceOf(g), 0)] + GroupPart(feeds, g, i + 1, true);
      } else {
        GroupHead(feeds, g, i + 1);
      }
    }
  }

  lemma {:induction false} CategoryHeadIs(cats: seq<Category>, feeds: seq<Feed>, c: nat)
    ensures var os := CategoryPart(cats, feeds, c); os == [] || (os[0].OfCategory? && os[0].c < |cats|)
    decreases |cats| - c
  {
    if c < |cats| {
      CategoryHeadIs(cats, feeds, c + 1);
    }
  }

  lemma BuiltShape(cats: seq<Category>, feeds: seq<Feed>)
    ensures Shape(Built(cats, feeds)) && Built(cats, feeds) != []
  {
    hide GroupPart, CategoryPart;
    GroupHead(feeds, VirtualFeeds, 0);
    GroupHead(feeds, Labels, 0);
    CategoryHeadIs(cats, feeds, 0);
    var v, l := GroupPart(feeds, VirtualFeeds, 0, false), GroupPart(feeds, Labels, 0, false);
    var c := CategoryPart(cats, feeds, 0);
    var os := Outline(cats, feeds);
    if v != [] {
      assert os[0] == v[0] && os[1] == v[1];
    } else if l != [] {
      assert os[0] == l[0] && os[1] == l[1];
    } else {
      assert os[0] == Header("Feeds") && (|os| > 1 ==> os[1] == c[0]);
    }
  }
}
