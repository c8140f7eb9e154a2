/** The article pane's links: collected without repetition and laid out in lines. */
module Links {
  import opened Bytes
  import opened Cells
  import opened Wrap
  import opened WrapBuffer
  import opened WrapCode
  import opened Urls

  // ----- collecting ------------------------------------------------------------------

  /** An address is added unless it is empty or already there. */
  function Add(urls: seq<Text>, url: Text): seq<Text> {
    if url == [] || url in urls then urls else urls + [url]
  }

  function Collect(urls: seq<Text>, candidates: seq<Text>): seq<Text>
    decreases |candidates|
  {
    if candidates == [] then urls else Collect(Add(urls, candidates[0]), candidates[1..])
  }

  predicate NoRepeats(urls: seq<Text>) {
    (forall i | 0 <= i < |urls| :: urls[i] != []) && forall i, j | 0 <= i < j < |urls| :: urls[i] != urls[j]
  }

  /** Index of the first occurrence; the length if there is none. */
  function FirstIndex(s: seq<Text>, x: Text): (k: nat)
    ensures k <= |s| && (k < |s| ==> s[k] == x) && (x in s <==> k < |s|)
  {
    if s == [] || s[0] == x then 0 else 1 + FirstIndex(s[1..], x)
  }

  predicate InOrder(urls: seq<Text>, seen: seq<Text>) {
    forall i, j | 0 <= i < j < |urls| :: FirstIndex(seen, urls[i]) < FirstIndex(seen, urls[j])
  }

  /** `urls` is exactly what `seen` offers: each nonempty address once, in first-seen order. */
  ghost predicate Digest(urls: seq<Text>, seen: seq<Text>) {
    NoRepeats(urls) && (forall u :: u in urls <==> u != [] && u in seen) && InOrder(urls, seen)
  }

  lemma {:induction false} FirstIndexSnoc(s: seq<Text>, y: Text, x: Text)
    ensures FirstIndex(s + [y], x) == if x in s then FirstIndex(s, x) else if x == y then |s| else |s| + 1
  {
    if s == [] {
    } else {
      assert (s + [y])[1..] == s[1..] + [y];
      FirstIndexSnoc(s[1..], y, x);
      assert x in s <==> s[0] == x || x in s[1..];
    }
  }

  lemma DigestAdd(urls: seq<Text>, seen: seq<Text>, url: Text)
    requires Digest(urls, seen)
    ensures Digest(Add(urls, url), seen + [url])
  {
    var next := Add(urls, url);
    forall u
      ensures FirstIndex(seen + [url], u)
           == if u in seen then FirstIndex(seen, u) else if u == url then |seen| else |seen| + 1
    {
      FirstIndexSnoc(seen, url, u);
    }
    assert forall i | 0 <= i < |urls| :: next[i] == urls[i] && urls[i] in urls;
    assert InOrder(next, seen + [url]);
  }

  lemma {:induction false} CollectDigest(urls: seq<Text>, seen: seq<Text>, candidates: seq<Text>)
    requires Digest(urls, seen)
    ensures Digest(Collect(urls, candidates), seen + candidates)
    decreases |candidates|
  {
    hide Digest, Add;
    if candidates == [] {
      assert seen + candidates == seen;
    } else {
      DigestAdd(urls, seen, candidates[0]);
      CollectDigest(Add(urls, candidates[0]), seen + [candidates[0]], candidates[1..]);
      assert seen + [candidates[0]] + candidates[1..] == seen + candidates;
    }
  }

  /** The link list holds each nonempty candidate once, in first-seen order, and nothing else. */
  lemma CollectedLinks(candidates: seq<Text>)
    ensures Digest(Collect([], candidates), candidates)
  {
    CollectDigest([], [], candidates);
    assert [] + candidates == candidates;
  }

  method UrlAdd(urls: seq<Text>, url: Text) returns (r: seq<Text>)
    ensures r == Add(urls, url)
  {
    if |url| == 0 {
      return urls;
    }
    var i := 0;
    while i < |urls|
      invariant i <= |urls| && url !in urls[..i]
    {
      if urls[i] == url {
        return urls;
      }
      i := i + 1;
    }
    assert urls[..i] == urls;
    return urls + [url];
  }

  method CollectUrls(candidates: seq<Text>) returns (urls: seq<Text>)
    ensures urls == Collect([], candidates)
  {
    urls := [];
    var i := 0;
    assert candidates[0..] == candidates;
    while i < |candidates|
      invariant i <= |candidates| && Collect(urls, candidates[i..]) == Collect([], candidates)
    {
      assert candidates[i..][1..] == candidates[i + 1..];
      urls := UrlAdd(urls, candidates[i]);
      i := i + 1;
    }
  }

  /** Everything an article can link to: its own address, its comments, attachments, and addresses in its text. */
  function Candidates(link: Text, comments: Text, attachments: seq<Text>, text: Text): seq<Text> {
    var spans := Extract(text, 0);
    [link, comments] + attachments + seq(|spans|, i requires 0 <= i < |spans| => Slice(text, spans[i]))
  }

  /** The links of an article are exactly its nonempty addresses, comments, attachments and addresses in its text. */
  lemma LinksOfArticle(link: Text, comments: Text, attachments: seq<Text>, text: Text, u: Text)
    ensures var urls := Collect([], Candidates(link, comments, attachments, text));
            && (u in urls <==>
                u != [] && (u == link || u == comments || u in attachments
                            || exists s <- Extract(text, 0) :: u == Slice(text, s)))
            && NoRepeats(urls)
            && (link != [] ==> urls != [] && urls[0] == link)
            && (link == [] && comments != [] ==> urls != [] && urls[0] == comments)
  {
    hide Extract, Slice, Collect;
    var all := Candidates(link, comments, attachments, text);
    var spans := Extract(text, 0);
    var found := seq(|spans|, i requires 0 <= i < |spans| => Slice(text, spans[i]));
    CollectedLinks(all);
    assert all == [link, comments] + attachments + found;
    assert u in all <==> u == link || u == comments || u in attachments || u in found;
    assert u in found <==> exists s <- spans :: u == Slice(text, s) by {
      if u in found {
        var i :| 0 <= i < |found| && found[i] == u;
        assert spans[i] in spans;
      }
      if s :| s in spans && u == Slice(text, s) {
        var i :| 0 <= i < |spans| && spans[i] == s;
        assert found[i] == u;
      }
    }
    if link != [] {
      FirstCollected(all, 0);
    } else if comments != [] {
      FirstCollected(all, 1);
    }
  }

  /** The first nonempty candidate is the first link. */
  lemma FirstCollected(candidates: seq<Text>, k: nat)
    requires k < |candidates| && candidates[k] != [] && forall i | 0 <= i < k :: candidates[i] == []
    ensures Collect([], candidates) != [] && Collect([], candidates)[0] == candidates[k]
    decreases k
  {
    hide Collect;
    var urls := Collect([], candidates);
    CollectedLinks(candidates);
    assert candidates[k] in candidates && candidates[k] in urls;
    var j :| 0 <= j < |urls| && urls[j] == candidates[k];
    FirstAt(candidates, k);
    assert urls[0] in urls;
    assert FirstIndex(candidates, urls[0]) >= k;
    assert j == 0;
  }

  lemma {:induction false} FirstAt(s: seq<Text>, k: nat)
    requires k < |s| && forall i | 0 <= i < k :: s[i] != s[k]
    ensures FirstIndex(s, s[k]) == k
    decreases k
  {
    if k > 0 {
      FirstAt(s[1..], k - 1);
    }
  }

  method ArticleUrls(link: Text, comments: Text, attachments: seq<Text>, text: Text) returns (urls: seq<Text>)
    ensures urls == Collect([], Candidates(link, comments, attachments, text))
  {
    hide Extract, Slice, Collect;
    var found := UrlExtract(text);
    var all := [link, comments] + attachments + found;
    assert all == Candidates(link, comments, attachments, text);
    urls := CollectUrls(all);
  }

  // ----- laying out ---------------------------------------------------------------------

  datatype Link = Link(url: Text, line: nat, nlines: nat)

  /** Lines a link takes. */
  function LinesOf(wc: Wc, width: int, url: Text): nat { |Wrapped(wc, Max(width, 1), url)| }

  /** The links one below the other from line `start` on. */
  function Ranges(wc: Wc, width: int, urls: seq<Text>, start: nat): seq<Link>
    decreases |urls|
  {
    if urls == [] then []
    else
      var n := LinesOf(wc, width, urls[0]);
      [Link(urls[0], start, n)] + Ranges(wc, width, urls[1..], start + n)
  }

  function AllLines(wc: Wc, width: int, urls: seq<Text>): nat {
    if urls == [] then 0 else LinesOf(wc, width, urls[0]) + AllLines(wc, width, urls[1..])
  }

  /** Line ranges follow one another without gap or overlap, from `start` to `end`. */
  predicate Contiguous(links: seq<Link>, start: nat, end: nat)
    decreases |links|
  {
    if links == [] then start == end
    else links[0].line == start && Contiguous(links[1..], start + links[0].nlines, end)
  }

  lemma {:induction false} RangesContiguous(wc: Wc, width: int, urls: seq<Text>, start: nat)
    ensures Contiguous(Ranges(wc, width, urls, start), start, start + AllLines(wc, width, urls))
    ensures |Ranges(wc, width, urls, start)| == |urls|
    ensures forall i | 0 <= i < |urls| :: Ranges(wc, width, urls, start)[i].url == urls[i]
    decreases |urls|
  {
    hide LinesOf;
    if urls != [] {
      var n := LinesOf(wc, width, urls[0]);
      RangesContiguous(wc, width, urls[1..], start + n);
      assert Ranges(wc, width, urls, start)[1..] == Ranges(wc, width, urls[1..], start + n);
    }
  }

  /** So ranges are disjoint, in order, and inside the article. */
  lemma {:induction false} ContiguousDisjoint(links: seq<Link>, start: nat, end: nat)
    requires Contiguous(links, start, end)
    ensures start <= end
    ensures forall i | 0 <= i < |links| :: start <= links[i].line && links[i].line + links[i].nlines <= end
    ensures forall i, j | 0 <= i < j < |links| :: links[i].line + links[i].nlines <= links[j].line
    decreases |links|
  {
    if links != [] {
      ContiguousDisjoint(links[1..], start + links[0].nlines, end);
    }
  }

  /** Each link's lines in `lines` are its wrapped address. */
  predicate ShowsLinks(wc: Wc, width: int, attr: int, links: seq<Link>, lines: seq<ArtLine>) {
    forall i | 0 <= i < |links| ::
      links[i].line + links[i].nlines <= |lines|
      && lines[links[i].line..links[i].line + links[i].nlines]
         == WithAttr(Wrapped(wc, Max(width, 1), links[i].url), attr)
  }

  lemma ShowsMore(wc: Wc, width: int, attr: int, links: seq<Link>, lines: seq<ArtLine>, url: Text)
    requires ShowsLinks(wc, width, attr, links, lines)
    ensures ShowsLinks(wc, width, attr, links + [Link(url, |lines|, LinesOf(wc, width, url))],
                       lines + WithAttr(Wrapped(wc, Max(width, 1), url), attr))
  {
    hide Wrapped;
    var more := lines + WithAttr(Wrapped(wc, Max(width, 1), url), attr);
    var n := |lines|;
    assert more[n..n + LinesOf(wc, width, url)] == WithAttr(Wrapped(wc, Max(width, 1), url), attr);
    forall i | 0 <= i < |links|
      ensures var from, to := links[i].line, links[i].line + links[i].nlines; more[from..to] == lines[from..to]
    {
    }
  }

  /** The loop that appends the links to the article and records where each one went. */
  method LayOutLinks(wc: Wc, urls: seq<Text>, width: int, attr: int, out: LineList) returns (links: seq<Link>)
    requires out.Valid() && AtMostTwo(wc) && width >= 2
    requires forall u <- urls :: LineFits(wc, width, u)
    modifies out, out.lines
    ensures out.Valid()
    ensures links == Ranges(wc, width, urls, |old(out.Contents())|)
    ensures old(out.Contents()) <= out.Contents()
    ensures |out.Contents()| == |old(out.Contents())| + AllLines(wc, width, urls)
    ensures ShowsLinks(wc, width, attr, links, out.Contents())
  {
    hide Wrapped, Wrappable, ShowsLinks, LineFits;
    links := [];
    var i := 0;
    ghost var start := |out.Contents()|;
    NoLinksShown(wc, width, attr, out.Contents());
    assert urls[0..] == urls;
    while i < |urls|
      invariant i <= |urls| && out.Valid() && (fresh(out.lines) || out.lines == old(out.lines))
      invariant links + Ranges(wc, width, urls[i..], |out.Contents()|) == Ranges(wc, width, urls, start)
      invariant old(out.Contents()) <= out.Contents()
      invariant |out.Contents()| + AllLines(wc, width, urls[i..]) == start + AllLines(wc, width, urls)
      invariant ShowsLinks(wc, width, attr, links, out.Contents())
    {
      assert urls[i..][1..] == urls[i + 1..];
      var before := out.n;
      ShowsMore(wc, width, attr, links, out.Contents(), urls[i]);
      WideEnough(wc, width, urls[i]);
      RenderWrap(wc, urls[i], width, attr, out);
      links := links + [Link(urls[i], before, out.n - before)];
      i := i + 1;
    }
  }

  lemma NoLinksShown(wc: Wc, width: int, attr: int, lines: seq<ArtLine>)
    ensures ShowsLinks(wc, width, attr, [], lines)
  {
  }
}
