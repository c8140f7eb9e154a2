/** headlines.c: the list object and its methods, against a modelled server. */
module HeadlinesCode {
  import opened Headlines

  class ListPane {
    var heads: seq<Headline>
    var sel: int
    var top: int
    var rows: int
    var limit: int
    var more: bool

    /** The server side: the current view's list, which requests get through, how many were made. */
    var list: seq<Headline>
    const net: Net
    var calls: nat
    ghost var loaded: bool

    ghost function Now(): State
      reads this
    {
      State(heads, sel, top, rows, limit, more, list, loaded, calls)
    }

    constructor (n: Net)
      ensures Now() == State([], 0, 0, 0, 0, false, [], false, 0) && net == n
    {
      heads, sel, top, rows, limit, more, list, net, calls, loaded := [], 0, 0, 0, 0, false, [], n, 0, false;
    }

    /** One request for a page of the current view. */
    method Request(skip: nat) returns (ok: bool, page: seq<Headline>)
      modifies this`calls
      ensures calls == old(calls) + 1 && ok == net(old(calls))
      ensures page == if ok then Page(list, limit, skip) else []
    {
      ok := net(calls);
      calls := calls + 1;
      page := if ok then Page(list, limit, skip) else [];
    }

    /** Open the view whose headlines the server keeps in `view`. */
    method LoadView(view: seq<Headline>) returns (ok: bool)
      modifies this
      ensures Now() == Load(old(Now()), net, view) && ok == net(old(calls))
    {
      hide FirstUnread, Page;
      heads, more := [], false;
      list, loaded := view, false;
      limit := if rows > 0 then rows else DEFAULT_LIMIT;
      sel, top := 0, 0;
      var page;
      ok, page := Request(0);
      if !ok {
        return;
      }
      heads, loaded := page, true;
      more := |page| >= limit;
      SelectUnread();
    }

    /** Pre-select the first unread headline, if any. */
    method SelectUnread()
      requires sel == 0
      modifies this`sel
      ensures var u := FirstUnread(heads, 0); sel == if u >= 0 then u else 0
    {
      var i := 0;
      while i < |heads|
        invariant 0 <= i <= |heads| && sel == 0
        invariant FirstUnread(heads, i) == FirstUnread(heads, 0)
      {
        if heads[i].unread {
          sel := i;
          break;
        }
        i := i + 1;
      }
    }

    method FetchMore() returns (ok: bool)
      modifies this`heads, this`more, this`calls
      ensures Now() == LoadMore(old(Now()), net) && (ok <==> !LoadMoreFails(old(Now()), net))
    {
      if !more {
        return true;
      }
      var page;
      ok, page := Request(|heads|);
      if !ok {
        return false;
      }
      if |page| == 0 {
        more := false;
        return true;
      }
      heads := heads + page;
      more := |page| >= limit;
      return true;
    }

    /** Put the window around the selection. */
    method ShowSelection()
      modifies this`top
      ensures Now() == Reveal(old(Now()), sel)
    {
      if sel < top {
        top := sel;
      }
      if rows > 0 && sel >= top + rows {
        top := sel - rows + 1;
      }
    }

    method MoveBy(delta: int)
      modifies this
      ensures Now() == Move(old(Now()), net, delta)
    {
      if |heads| == 0 {
        return;
      }
      var idx := sel + delta;
      if idx < 0 {
        idx := 0;
      }
      if idx >= |heads| {
        if more {
          var ok := FetchMore();
          if !ok {
            return;
          }
        }
        if idx >= |heads| {
          idx := |heads| - 1;
        }
      }
      sel := idx;
      ShowSelection();
    }

    method GoHome()
      modifies this`sel, this`top
      ensures Now() == Home(old(Now()))
    {
      sel, top := 0, 0;
    }

    /** Load everything, page by page, and select the last headline. */
    method GoEnd()
      modifies this
      ensures Now() == End(old(Now()), net)
    {
      hide LoadMore;
      ghost var start := Now();
      var failed := false;
      while more && !failed
        invariant failed ==> Now() == LoadAll(start, net)
        invariant !failed ==> LoadAll(Now(), net) == LoadAll(start, net)
        decreases !failed, if !more then 0 else if |list| > |heads| then 1 + |list| - |heads| else 1
      {
        ghost var before := Now();
        if net(calls) {
          FetchShrinks(before, net);
        }
        var ok := FetchMore();
        failed := !ok;
      }
      assert Now() == LoadAll(start, net);
      if |heads| > 0 {
        sel := |heads| - 1;
      }
      if rows > 0 && sel >= top + rows {
        top := sel - rows + 1;
      }
    }

    method GoUnread()
      requires sel >= 0
      modifies this`sel, this`top
      ensures Now() == NextUnread(old(Now()))
    {
      hide Around;
      if |heads| == 0 {
        return;
      }
      var start := sel + 1;
      var k := 0;
      while k < |heads|
        invariant k <= |heads| && Now() == old(Now())
        invariant UnreadOffset(heads, start, k) == UnreadOffset(heads, start, 0)
      {
        var i := Around(|heads|, start, k);
        if heads[i].unread {
          sel := i;
          ShowSelection();
          return;
        }
        k := k + 1;
      }
    }

    method SetRows(r: int)
      modifies this`rows, this`limit
      ensures Now() == Resize(old(Now()), r)
    {
      rows := r;
      if rows > 0 {
        limit := rows;
      }
    }
  }

  /** Each page fetched brings the end nearer. */
  lemma FetchShrinks(s: State, net: Net)
    requires s.more && !LoadMoreFails(s, net)
    ensures var t := LoadMore(s, net);
            t.list == s.list && (!t.more || (|t.list| - |t.heads| < |s.list| - |s.heads| && |t.heads| <= |t.list|))
  {
  }
}
