/** The headline list: pages fetched on demand, a cursor and a window, against a server with a fixed list. */
module Headlines {
  import opened Bytes

  datatype Headline = Headline(id: int, unread: bool)

  const DEFAULT_LIMIT := 20

  /** `list` is the server's list for the current view; `loaded` whether the view's first page arrived. */
  datatype State = State(heads: seq<Headline>, sel: int, top: int, rows: int, limit: int, more: bool,
                         list: seq<Headline>, loaded: bool, calls: nat)

  /** Which requests the network lets through. */
  type Net = nat -> bool

  /** A server that honours skip and limit. */
  function Page(list: seq<Headline>, limit: int, skip: nat): (p: seq<Headline>)
    ensures |p| <= if limit > 0 then limit else 0
    ensures skip <= |list| ==> list[..skip] + p <= list
    ensures p == [] <==> skip >= |list| || limit <= 0
    ensures limit > 0 && |p| < limit && skip <= |list| ==> list[..skip] + p == list
  {
    if skip >= |list| || limit <= 0 then []
    else if skip + limit <= |list| then list[skip..skip + limit]
    else list[skip..]
  }

  function FirstUnread(heads: seq<Headline>, i: nat): (r: int)
    requires i <= |heads|
    ensures r == -1 || i <= r < |heads|
    ensures r >= 0 ==> heads[r].unread && forall j | i <= j < r :: !heads[j].unread
    ensures r < 0 ==> forall j | i <= j < |heads| :: !heads[j].unread
    decreases |heads| - i
  {
    if i == |heads| then -1 else if heads[i].unread then i else FirstUnread(heads, i + 1)
  }

  // ----- the operations ------------------------------------------------------------

  /** Open a view: the first page, with the first unread headline selected. */
  function Load(s: State, net: Net, list: seq<Headline>): State {
    var limit := if s.rows > 0 then s.rows else DEFAULT_LIMIT;
    if !net(s.calls) then State([], 0, 0, s.rows, limit, false, list, false, s.calls + 1)
    else
      var page := Page(list, limit, 0);
      var u := FirstUnread(page, 0);
      State(page, if u >= 0 then u else 0, 0, s.rows, limit, |page| >= limit, list, true, s.calls + 1)
  }

  function LoadMore(s: State, net: Net): State {
    if !s.more then s
    else if !net(s.calls) then s.(calls := s.calls + 1)
    else
      var page := Page(s.list, s.limit, |s.heads|);
      if page == [] then s.(more := false, calls := s.calls + 1)
      else s.(heads := s.heads + page, more := |page| >= s.limit, calls := s.calls + 1)
  }

  /** Whether the request LoadMore makes, if it makes one, fails. */
  predicate LoadMoreFails(s: State, net: Net) { s.more && !net(s.calls) }

  function Reveal(s: State, sel: int): State {
    var top := if sel < s.top then sel else s.top;
    s.(sel := sel, top := if s.rows > 0 && sel >= top + s.rows then sel - s.rows + 1 else top)
  }

  function Move(s: State, net: Net, delta: int): State {
    if s.heads == [] then s
    else
      var idx := if s.sel + delta < 0 then 0 else s.sel + delta;
      if idx < |s.heads| then Reveal(s, idx)
      else if LoadMoreFails(s, net) then LoadMore(s, net)
      else
        var t := LoadMore(s, net);
        Reveal(t, if idx < |t.heads| then idx else |t.heads| - 1)
  }

  function Home(s: State): State { s.(sel := 0, top := 0) }

  /** Fetch until nothing is left or a request fails. */
  function LoadAll(s: State, net: Net): State
    decreases if !s.more then 0 else if |s.list| > |s.heads| then 1 + |s.list| - |s.heads| else 1
  {
    if !s.more then s
    else if LoadMoreFails(s, net) then LoadMore(s, net)
    else LoadAll(LoadMore(s, net), net)
  }

  function End(s: State, net: Net): State {
    var t := LoadAll(s, net);
    var u := if t.heads != [] then t.(sel := |t.heads| - 1) else t;
    if u.rows > 0 && u.sel >= u.top + u.rows then u.(top := u.sel - u.rows + 1) else u
  }

  /** The index `k` places after `start`, around the list. */
  function Around(n: nat, start: nat, k: nat): (i: nat)
    requires n > 0
    ensures i < n
  {
    (start + k) % n
  }

  /** Places after `start` of the first unread headline; the length if there is none. */
  function UnreadOffset(heads: seq<Headline>, start: nat, k: nat): (r: nat)
    requires k <= |heads|
    ensures k <= r <= |heads|
    ensures r < |heads| ==> heads[Around(|heads|, start, r)].unread
    ensures forall j | k <= j < r :: !heads[Around(|heads|, start, j)].unread
    decreases |heads| - k
  {
    if k == |heads| then k
    else if heads[Around(|heads|, start, k)].unread then k
    else UnreadOffset(heads, start, k + 1)
  }

  function NextUnread(s: State): State {
    if s.heads == [] || s.sel < 0 then s
    else
      var k := UnreadOffset(s.heads, s.sel + 1, 0);
      if k < |s.heads| then Reveal(s, Around(|s.heads|, s.sel + 1, k)) else s
  }

  /** A new layout: the page size follows the pane. */
  function Resize(s: State, rows: int): State { s.(rows := rows, limit := if rows > 0 then rows else s.limit) }

  // ----- invariants --------------------------------------------------------------------

  /** What is loaded is a prefix of the server's list, and all of it once the list says there is no more. */
  predicate Agrees(s: State) {
    && s.heads <= s.list
    && (s.loaded ==> s.limit > 0 && (!s.more ==> s.heads == s.list))
    && (!s.loaded ==> s.heads == [] && !s.more)
  }

  /** The selection is in range and not above the window. */
  predicate InRange(s: State) {
    if s.heads == [] then s.sel == 0 == s.top else 0 <= s.top <= s.sel < |s.heads|
  }

  predicate InWindow(s: State) { s.rows > 0 && s.heads != [] ==> s.sel < s.top + s.rows }

  lemma LoadMoreKeeps(s: State, net: Net)
    requires Agrees(s)
    ensures Agrees(LoadMore(s, net)) && s.heads <= LoadMore(s, net).heads
    ensures InRange(s) && s.heads != [] ==> InRange(LoadMore(s, net))
  {
    assert s.list[..|s.heads|] == s.heads;
  }

  lemma LoadKeeps(s: State, net: Net, list: seq<Headline>)
    ensures var t := Load(s, net, list); Agrees(t) && InRange(t) && InWindow(t) && (t.loaded <==> net(s.calls))
  {
    assert list[..0] == [];
    var limit := if s.rows > 0 then s.rows else DEFAULT_LIMIT;
    assert [] + Page(list, limit, 0) == Page(list, limit, 0);
  }

  lemma {:induction false} LoadAllKeeps(s: State, net: Net)
    requires Agrees(s)
    ensures var t := LoadAll(s, net);
            && Agrees(t) && s.heads <= t.heads
            && t == s.(heads := t.heads, more := t.more, calls := t.calls)
            && (t.more ==> t.calls > 0 && !net(t.calls - 1))
    decreases if !s.more then 0 else if |s.list| > |s.heads| then 1 + |s.list| - |s.heads| else 1
  {
    LoadMoreKeeps(s, net);
    if s.more && !LoadMoreFails(s, net) {
      LoadAllKeeps(LoadMore(s, net), net);
    }
  }

  /** Jumping to the end stops only at the end of the server's list, or at a request that failed. */
  lemma EndLoadsAll(s: State, net: Net)
    requires Agrees(s) && s.loaded
    ensures var t := End(s, net);
            t.heads == s.list || (t.more && t.calls > s.calls && !net(t.calls - 1))
    ensures (forall k :: net(k)) ==> End(s, net).heads == s.list && !End(s, net).more
  {
    LoadAllKeeps(s, net);
    LoadAllCalls(s, net);
  }

  lemma {:induction false} LoadAllCalls(s: State, net: Net)
    ensures LoadAll(s, net).calls >= s.calls
    ensures LoadAll(s, net).more ==> LoadAll(s, net).calls > s.calls
    decreases if !s.more then 0 else if |s.list| > |s.heads| then 1 + |s.list| - |s.heads| else 1
  {
    if s.more && !LoadMoreFails(s, net) {
      LoadAllCalls(LoadMore(s, net), net);
    }
  }

  /** A move is clamped arithmetic on what is loaded after at most one more page; if that page fails nothing moves. */
  lemma MoveClamps(s: State, net: Net, delta: int)
    requires Agrees(s) && InRange(s) && s.heads != []
    ensures var t := Move(s, net, delta);
            && (t.heads == s.heads || t.heads == s.heads + Page(s.list, s.limit, |s.heads|))
            && (if s.sel + delta >= |s.heads| && LoadMoreFails(s, net) then t == s.(calls := s.calls + 1)
                else t.sel == Clamp(s.sel + delta, 0, |t.heads| - 1))
  {
    LoadMoreKeeps(s, net);
  }

  lemma MoveKeeps(s: State, net: Net, delta: int)
    requires Agrees(s) && InRange(s)
    ensures var t := Move(s, net, delta); Agrees(t) && InRange(t) && t.rows == s.rows
    ensures InWindow(s) || !LoadMoreFails(s, net) ==> InWindow(Move(s, net, delta))
  {
    LoadMoreKeeps(s, net);
  }

  lemma EndKeeps(s: State, net: Net)
    requires Agrees(s) && InRange(s)
    ensures var t := End(s, net); Agrees(t) && InRange(t) && InWindow(t) && t.rows == s.rows
  {
    LoadAllKeeps(s, net);
  }

  /** A view opens with one page (20 headlines while the pane has no rows) and its first unread headline selected. */
  lemma LoadSelects(s: State, net: Net, list: seq<Headline>)
    ensures var t := Load(s, net, list);
            && (net(s.calls) ==> t.heads == list[..Min(|list|, if s.rows > 0 then s.rows else 20)])
            && (!net(s.calls) ==> t.heads == []) && t.top == 0
            && (t.more <==> net(s.calls) && |list| >= if s.rows > 0 then s.rows else 20)
            && 0 <= t.sel <= |t.heads| && (forall j | 0 <= j < t.sel :: !t.heads[j].unread)
            && ((t.sel < |t.heads| && t.heads[t.sel].unread)
                || (t.sel == 0 && forall j | 0 <= j < |t.heads| :: !t.heads[j].unread))
  {
    hide FirstUnread;
  }

  /** A further page brings as many headlines as are left, up to the page size. */
  lemma PageSize(s: State, net: Net)
    requires Agrees(s) && s.loaded && s.more && net(s.calls)
    ensures LoadMore(s, net).heads == s.list[..Min(|s.list|, |s.heads| + s.limit)]
    ensures LoadMore(s, net).more <==> |s.list| >= |s.heads| + s.limit
  {
    assert s.list[..|s.heads|] == s.heads;
  }

  /** After a resize pages have the pane's new height; a pane without rows keeps the page size. */
  lemma ResizedPage(s: State, net: Net, rows: int)
    requires Agrees(s) && s.loaded && s.more && net(s.calls)
    ensures var t := Resize(s, rows);
            LoadMore(t, net).heads == s.list[..Min(|s.list|, |s.heads| + if rows > 0 then rows else s.limit)]
  {
    PageSize(Resize(s, rows), net);
  }

  /** The window only moves to take in the selection: to its first or last row, whichever is nearer. */
  predicate Follows(top: int, rows: int, sel: int, top': int) {
    if sel < top then top' == sel
    else if rows > 0 && sel >= top + rows then top' + rows == sel + 1
    else top' == top
  }

  /** The jumps go to the first headline, and to the last of what is then loaded. */
  lemma JumpsSelect(s: State, net: Net)
    requires Agrees(s)
    ensures Home(s).sel == 0 && Home(s).top == 0
    ensures End(s, net).heads != [] ==> End(s, net).sel == |End(s, net).heads| - 1
    ensures s.heads != [] && InRange(s) ==> Follows(s.top, s.rows, End(s, net).sel, End(s, net).top)
  {
    hide Agrees;
    LoadAllKeeps(s, net);
  }

  lemma RevealFollows(s: State, sel: int)
    ensures Follows(s.top, s.rows, sel, Reveal(s, sel).top) && Reveal(s, sel).sel == sel
  {
  }

  /** The window follows each move: nothing else moves it. */
  lemma WindowFollows(s: State, net: Net, delta: int)
    requires !LoadMoreFails(s, net) && s.heads != []
    ensures Follows(s.top, s.rows, Move(s, net, delta).sel, Move(s, net, delta).top)
    ensures NextUnread(s) == s || Follows(s.top, s.rows, NextUnread(s).sel, NextUnread(s).top)
  {
    hide Around, UnreadOffset, Reveal, Follows, Page;
    var n := LoadMore(s, net);
    assert n.top == s.top && n.rows == s.rows;
    var idx := if s.sel + delta < 0 then 0 else s.sel + delta;
    RevealFollows(s, idx);
    RevealFollows(n, if idx < |n.heads| then idx else |n.heads| - 1);
    if s.sel >= 0 {
      var k := UnreadOffset(s.heads, s.sel + 1, 0);
      RevealFollows(s, if k < |s.heads| then Around(|s.heads|, s.sel + 1, k) else 0);
    }
  }

  /** Index `i` is passed on the way from `from` forward to `to`, around the end if need be. */
  predicate Passed(from: int, to: int, i: int) {
    if from < to then from < i < to else from < i || i < to
  }

  /** The next unread headline around the list is selected if there is one; nothing changes otherwise. */
  lemma NextUnreadFinds(s: State)
    requires InRange(s) && s.heads != []
    ensures (exists i :: 0 <= i < |s.heads| && s.heads[i].unread) ==>
      && s.heads[NextUnread(s).sel].unread
      && forall i | 0 <= i < |s.heads| && Passed(s.sel, NextUnread(s).sel, i) :: !s.heads[i].unread
    ensures (forall i | 0 <= i < |s.heads| :: !s.heads[i].unread) ==> NextUnread(s) == s
    ensures InRange(NextUnread(s)) && (InWindow(s) ==> InWindow(NextUnread(s)))
  {
    hide Around;
    var n := |s.heads|;
    var k := UnreadOffset(s.heads, s.sel + 1, 0);
    if k < n {
      Lands(n, s.sel + 1, k);
    }
    assert k < n ==> NextUnread(s).sel == Around(n, s.sel + 1, k);
    forall i | 0 <= i < n && (k == n || Passed(s.sel, NextUnread(s).sel, i))
      ensures !s.heads[i].unread
    {
      var j := if i > s.sel then i - s.sel - 1 else i - s.sel - 1 + n;
      Reaches(n, s.sel + 1, j, i);
      assert !s.heads[Around(n, s.sel + 1, j)].unread;
    }
  }

  lemma Lands(n: nat, start: nat, k: nat)
    requires start <= n && k < n
    ensures Around(n, start, k) == if start + k < n then start + k else start + k - n
  {
    hide Around;
    Reaches(n, start, k, if start + k < n then start + k else start + k - n);
  }

  lemma Reaches(n: nat, start: nat, j: nat, i: nat)
    requires i < n && (start + j == i || start + j == i + n)
    ensures Around(n, start, j) == i
  {
  }

  // ----- runs ---------------------------------------------------------------------------

  datatype Op = Open(list: seq<Headline>) | Step(delta: int) | ToStart | ToEnd | ToUnread | Layout(rows: int)

  function Apply(s: State, net: Net, op: Op): State {
    match op
    case Open(list) => Load(s, net, list)
    case Step(delta) => Move(s, net, delta)
    case ToStart => Home(s)
    case ToEnd => End(s, net)
    case ToUnread => NextUnread(s)
    case Layout(rows) => Resize(s, rows)
  }

  function Run(s: State, net: Net, ops: seq<Op>): State
    decreases |ops|
  {
    if ops == [] then s else Run(Apply(s, net, ops[0]), net, ops[1..])
  }

  lemma ApplyKeeps(s: State, net: Net, op: Op)
    requires Agrees(s) && InRange(s)
    ensures var t := Apply(s, net, op); Agrees(t) && InRange(t)
    ensures InWindow(s) && (op.Layout? ==> op.rows <= 0 || 0 < s.rows <= op.rows) ==> InWindow(Apply(s, net, op))
    ensures op.Open? || op.ToStart? || op.ToEnd? ==> InWindow(Apply(s, net, op))
  {
    hide Move, End, Load, NextUnread;
    match op
    case Open(list) => LoadKeeps(s, net, list);
    case Step(delta) => MoveKeeps(s, net, delta);
    case ToStart =>
    case ToEnd => EndKeeps(s, net);
    case ToUnread =>
      if s.heads != [] {
        NextUnreadFinds(s);
      } else {
        NothingUnread(s);
      }
      NextUnreadList(s);
    case Layout(rows) =>
  }

  lemma NothingUnread(s: State)
    requires s.heads == []
    ensures NextUnread(s) == s
  {
  }

  lemma NextUnreadList(s: State)
    ensures NextUnread(s) == s.(sel := NextUnread(s).sel, top := NextUnread(s).top)
  {
  }

  /** Over every run, requests failing and the pane resized at will, the loaded list agrees with the server. */
  lemma {:induction false} RunAgrees(s: State, net: Net, ops: seq<Op>)
    requires Agrees(s) && InRange(s)
    ensures Agrees(Run(s, net, ops)) && InRange(Run(s, net, ops))
    decreases |ops|
  {
    hide Agrees, InRange, Apply;
    if ops != [] {
      ApplyKeeps(s, net, ops[0]);
      RunAgrees(Apply(s, net, ops[0]), net, ops[1..]);
    }
  }

  /** As long as the pane keeps its height, every run also keeps the selection in the window. */
  lemma {:induction false} RunInWindow(s: State, net: Net, ops: seq<Op>)
    requires Agrees(s) && InRange(s) && InWindow(s) && forall op <- ops :: !op.Layout?
    ensures InWindow(Run(s, net, ops))
    decreases |ops|
  {
    hide Agrees, InRange, InWindow, Apply;
    if ops != [] {
      ApplyKeeps(s, net, ops[0]);
      RunInWindow(Apply(s, net, ops[0]), net, ops[1..]);
    }
  }
}
