/** The built sidebar, position by position: its sections in order, each with its header and its items. */
module SidebarOrder {
  import opened Bytes
  import opened Sidebar
  import opened SidebarBuild

  /** The sections in the order they are shown. */
  function SectionOf(o: Origin): nat {
    match o
    case Header(title) => if title == "Virtual feeds" then 0 else if title == "Labels" then 1 else 2
    case OfFeed(_, source, _) => if source == FromVirtual then 0 else if source == FromLabel then 1 else 3
    case OfCategory(_) => 3
  }

  /** Two neighbours in the list. */
  predicate Follows(a: Origin, b: Origin) {
    if SectionOf(a) < SectionOf(b) then b.Header? || (a == Header("Feeds") && b.OfCategory?)
    else
      && SectionOf(a) == SectionOf(b) && !b.Header? && SectionOf(a) != 2
      && (a.OfFeed? && b.OfFeed? ==> a.f < b.f)
  }

  /** Neighbours follow one another. */
  predicate Chain(os: seq<Origin>) { forall i | 0 <= i < |os| - 1 :: Follows(os[i], os[i + 1]) }

  lemma ChainConcat(a: seq<Origin>, b: seq<Origin>)
    requires Chain(a) && Chain(b) && (a != [] && b != [] ==> Follows(a[|a| - 1], b[0]))
    ensures Chain(a + b)
  {
    hide Follows;
    var s := a + b;
    forall i | 0 <= i < |s| - 1
      ensures Follows(s[i], s[i + 1])
    {
      if i >= |a| {
        assert Follows(b[i - |a|], b[i - |a| + 1]);
      } else if i < |a| - 1 {
        assert Follows(a[i], a[i + 1]);
      }
    }
  }

  /** Feeds of one kind, at one depth, from an index on. */
  predicate FeedsFrom(os: seq<Origin>, source: Source, depth: nat, from: nat) {
    forall i | 0 <= i < |os| :: os[i].OfFeed? && os[i].source == source && os[i].depth == depth && os[i].f >= from
  }

  lemma {:induction false} GroupBody(feeds: seq<Feed>, g: Group, i: nat)
    ensures var os := GroupPart(feeds, g, i, true); Chain(os) && FeedsFrom(os, SourceOf(g), 0, i)
    decreases |feeds| - i
  {
    hide Belongs;
    if i < |feeds| {
      GroupBody(feeds, g, i + 1);
      var rest := GroupPart(feeds, g, i + 1, true);
      if Belongs(g, feeds[i]) {
        var o := OfFeed(i, SourceOf(g), 0);
        ChainConcat([o], rest);
        assert GroupPart(feeds, g, i, true) == [o] + rest;
      }
    }
  }

  /** A group is empty, or its header and then its feeds in the server's order. */
  lemma {:induction false} GroupSection(feeds: seq<Feed>, g: Group, i: nat)
    ensures var os := GroupPart(feeds, g, i, false);
            && Chain(os)
            && (os != [] ==> os[0] == Header(TitleOf(g)) && |os| > 1 && FeedsFrom(os[1..], SourceOf(g), 0, i))
    decreases |feeds| - i
  {
    hide Belongs;
    if i < |feeds| {
      if Belongs(g, feeds[i]) {
        var o := OfFeed(i, SourceOf(g), 0);
        GroupBody(feeds, g, i + 1);
        var rest := GroupPart(feeds, g, i + 1, true);
        ChainConcat([o], rest);
        ChainConcat([Header(TitleOf(g))], [o] + rest);
        assert GroupPart(feeds, g, i, false) == [Header(TitleOf(g))] + ([o] + rest);
      } else {
        GroupSection(feeds, g, i + 1);
      }
    }
  }

  lemma {:induction false} FeedSection(feeds: seq<Feed>, c: Category, i: nat)
    ensures Chain(FeedPart(feeds, c, i)) && FeedsFrom(FeedPart(feeds, c, i), FromFeed, 1, i)
    decreases |feeds| - i
  {
    hide FeedOf;
    if i < |feeds| {
      FeedSection(feeds, c, i + 1);
      var rest := FeedPart(feeds, c, i + 1);
      if FeedOf(c, feeds[i]) {
        ChainConcat([OfFeed(i, FromFeed, 1)], rest);
      } else {
        assert [] + rest == rest;
      }
    }
  }

  /** The category indexes of a list of origins, in order. */
  function CatsIn(os: seq<Origin>): seq<nat> {
    if os == [] then [] else (if os[0].OfCategory? then [os[0].c] else []) + CatsIn(os[1..])
  }

  lemma {:induction false} CatsInConcat(a: seq<Origin>, b: seq<Origin>)
    ensures CatsIn(a + b) == CatsIn(a) + CatsIn(b)
  {
    if a == [] {
      assert a + b == b;
    } else {
      assert (a + b)[1..] == a[1..] + b;
      CatsInConcat(a[1..], b);
      Assoc(if a[0].OfCategory? then [a[0].c] else [], CatsIn(a[1..]), CatsIn(b));
    }
  }

  lemma {:induction false} NoCats(os: seq<Origin>)
    requires forall i | 0 <= i < |os| :: !os[i].OfCategory?
    ensures CatsIn(os) == []
  {
    if os != [] {
      NoCats(os[1..]);
    }
  }

  /** The categories that are listed, from an index on. */
  function ListedCats(cats: seq<Category>, c: nat): seq<nat>
    decreases |cats| - c
  {
    if c >= |cats| then [] else (if cats[c].id >= 0 then [c] else []) + ListedCats(cats, c + 1)
  }

  /** The category section: a chain that starts with a category, all categories in the server's order. */
  lemma {:induction false} CategorySection(cats: seq<Category>, feeds: seq<Feed>, c: nat)
    ensures var os := CategoryPart(cats, feeds, c);
            && Chain(os) && CatsIn(os) == ListedCats(cats, c)
            && (forall i | 0 <= i < |os| :: SectionOf(os[i]) == 3 && !os[i].Header?)
            && (os != [] ==> os[0].OfCategory?)
    decreases |cats| - c
  {
    hide Chain, CatsIn, FeedPart;
    EmptySection();
    if c < |cats| {
      CategorySection(cats, feeds, c + 1);
      var rest := CategoryPart(cats, feeds, c + 1);
      if cats[c].id < 0 {
        assert [] + rest == rest;
      } else {
        CategoryBlock(feeds, cats[c], c);
        var block := [OfCategory(c)] + FeedPart(feeds, cats[c], 0);
        assert rest != [] ==> Follows(block[|block| - 1], rest[0]);
        ChainConcat(block, rest);
        CatsInConcat(block, rest);
      }
    }
  }

  /** A category and its feeds. */
  lemma CategoryBlock(feeds: seq<Feed>, cat: Category, c: nat)
    ensures var os := [OfCategory(c)] + FeedPart(feeds, cat, 0);
            && Chain(os) && CatsIn(os) == [c]
            && forall i | 0 <= i < |os| :: SectionOf(os[i]) == 3 && !os[i].Header?
  {
    hide Chain, CatsIn, FeedPart;
    var part := FeedPart(feeds, cat, 0);
    FeedSection(feeds, cat, 0);
    OneCategory(c);
    assert part != [] ==> Follows(OfCategory(c), part[0]);
    ChainConcat([OfCategory(c)], part);
    CatsInConcat([OfCategory(c)], part);
    NoCats(part);
    assert [c] + [] == [c];
  }

  lemma OneCategory(c: nat)
    ensures Chain([OfCategory(c)]) && CatsIn([OfCategory(c)]) == [c]
  {
    assert [OfCategory(c)][1..] == [];
  }

  lemma EmptySection()
    ensures Chain([]) && CatsIn([]) == []
  {
  }

  /** A chain without categories, from its header to items of its own section. */
  predicate GroupChain(os: seq<Origin>, g: Group) {
    && Chain(os) && CatsIn(os) == []
    && (os != [] ==>
        os[0].Header? && SectionOf(os[0]) == SectionOf(os[|os| - 1]) == if g == VirtualFeeds then 0 else 1)
  }

  lemma GroupIsChain(feeds: seq<Feed>, g: Group)
    ensures GroupChain(GroupPart(feeds, g, 0, false), g)
  {
    hide GroupPart, Chain, CatsIn;
    var os := GroupPart(feeds, g, 0, false);
    GroupSection(feeds, g, 0);
    forall i | 0 <= i < |os|
      ensures !os[i].OfCategory?
    {
      assert i > 0 ==> os[i] == os[1..][i - 1];
    }
    NoCats(os);
    if os != [] {
      assert os[|os| - 1] == os[1..][|os| - 2];
    }
  }

  lemma GroupsJoin(v: seq<Origin>, l: seq<Origin>)
    requires GroupChain(v, VirtualFeeds) && GroupChain(l, Labels)
    ensures Chain(v + l) && CatsIn(v + l) == []
    ensures v + l != [] ==> (v + l)[0].Header? && SectionOf((v + l)[|v + l| - 1]) <= 1
  {
    hide Chain, CatsIn;
    ChainConcat(v, l);
    CatsInConcat(v, l);
  }

  /**
   * Virtual feeds, labels, then the categories, each category with its feeds behind it, all in the server's
   * order; the first two sections have a header exactly if they are not empty, the third always.
   */
  lemma SectionsInOrder(cats: seq<Category>, feeds: seq<Feed>)
    ensures var os := Outline(cats, feeds);
            Chain(os) && os != [] && os[0].Header? && Header("Feeds") in os && CatsIn(os) == ListedCats(cats, 0)
  {
    hide GroupPart, CategoryPart, Chain, CatsIn;
    var v, l := GroupPart(feeds, VirtualFeeds, 0, false), GroupPart(feeds, Labels, 0, false);
    var c := CategoryPart(cats, feeds, 0);
    GroupIsChain(feeds, VirtualFeeds);
    GroupIsChain(feeds, Labels);
    GroupsJoin(v, l);
    CategorySection(cats, feeds, 0);
    FeedsHeaded(c);
    var h := [Header("Feeds")] + c;
    ChainConcat(v + l, h);
    CatsInConcat(v + l, h);
    assert Outline(cats, feeds) == v + l + h;
    assert (v + l + h)[|v + l|] == Header("Feeds");
    assert [] + CatsIn(c) == CatsIn(c);
  }

  lemma FeedsHeaded(c: seq<Origin>)
    requires Chain(c) && (c != [] ==> c[0].OfCategory?)
    ensures Chain([Header("Feeds")] + c) && CatsIn([Header("Feeds")] + c) == CatsIn(c)
  {
    hide CatsIn;
    ChainConcat([Header("Feeds")], c);
    CatsInConcat([Header("Feeds")], c);
    NoCats([Header("Feeds")]);
    assert [] + CatsIn(c) == CatsIn(c);
  }

  /** Each item shows what the server sent: the id, title and unread count of its feed or category. */
  predicate ShowsOrigin(cats: seq<Category>, feeds: seq<Feed>, o: Origin, x: Item) {
    match o
    case Header(title) => x.kind == Section && x.title == title && x.depth == 0 && !x.isCat
    case OfFeed(f, source, _) =>
      && f < |feeds| && x.kind == Entry && x.source == source && !x.isCat
      && x.id == feeds[f].id && x.title == feeds[f].title && x.unread == feeds[f].unread
      && x.depth == if source == FromFeed then 1 else 0
    case OfCategory(c) =>
      && c < |cats| && x.kind == Entry && x.source == FromCategory && x.isCat && x.depth == 0
      && x.id == cats[c].id && x.title == cats[c].title && x.unread == cats[c].unread
  }

  /** Where the origins of an outline can point. */
  predicate InRange(cats: seq<Category>, feeds: seq<Feed>, os: seq<Origin>) {
    forall o <- os ::
      (o.OfFeed? ==> o.f < |feeds| && o.depth == if o.source == FromFeed then 1 else 0)
      && (o.OfCategory? ==> o.c < |cats|)
  }

  lemma {:induction false} GroupInRange(cats: seq<Category>, feeds: seq<Feed>, g: Group, i: nat, any: bool)
    ensures InRange(cats, feeds, GroupPart(feeds, g, i, any))
    decreases |feeds| - i
  {
    hide Belongs;
    if i < |feeds| {
      GroupInRange(cats, feeds, g, i + 1, if Belongs(g, feeds[i]) then true else any);
    }
  }

  lemma {:induction false} FeedInRange(cats: seq<Category>, feeds: seq<Feed>, c: Category, i: nat)
    ensures InRange(cats, feeds, FeedPart(feeds, c, i))
    decreases |feeds| - i
  {
    hide FeedOf;
    if i < |feeds| {
      FeedInRange(cats, feeds, c, i + 1);
    }
  }

  lemma {:induction false} CategoryInRange(cats: seq<Category>, feeds: seq<Feed>, c: nat)
    ensures InRange(cats, feeds, CategoryPart(cats, feeds, c))
    decreases |cats| - c
  {
    if c < |cats| {
      CategoryInRange(cats, feeds, c + 1);
      FeedInRange(cats, feeds, cats[c], 0);
    }
  }

  /** A new list shows every origin as the server sent it, all categories open and every item visible. */
  lemma BuiltItems(cats: seq<Category>, feeds: seq<Feed>, i: nat)
    requires i < |Built(cats, feeds)|
    ensures ShowsOrigin(cats, feeds, Outline(cats, feeds)[i], Built(cats, feeds)[i])
    ensures Built(cats, feeds)[i].expanded && Visible(Built(cats, feeds), i)
  {
    hide GroupPart, CategoryPart;
    GroupInRange(cats, feeds, VirtualFeeds, 0, false);
    GroupInRange(cats, feeds, Labels, 0, false);
    CategoryInRange(cats, feeds, 0);
    assert InRange(cats, feeds, [Header("Feeds")]);
    var os := Outline(cats, feeds);
    assert os[i] in os;
    assert forall o <- os :: o in GroupPart(feeds, VirtualFeeds, 0, false) || o in GroupPart(feeds, Labels, 0, false)
                             || o == Header("Feeds") || o in CategoryPart(cats, feeds, 0);
    forall j | 0 <= j < |os|
      ensures Built(cats, feeds)[j].expanded
    {
    }
    AlwaysVisible(Built(cats, feeds), i);
  }
}
