/**
 * The recursive sitemap collector `get_sitemap_links`.
 *
 * The HTTP fetch and the XML parser are one oracle, `Web`, from a URL to a
 * response. A crawl fetches a URL; on status 200 with a parseable body it keeps
 * the `<loc>` texts that do not contain `wp-content`, recurses into every kept
 * loc whose last three characters are `xml`, and appends every other kept loc
 * to one accumulator shared by the whole call tree.
 *
 * The source has no depth or cycle guard; the model carries `fuel`, the number
 * of sitemap levels a call may still fetch. A call with no fuel left abandons its
 * node the way a failed fetch does. `FuelAdequate` shows that fuel changes
 * nothing once it exceeds the depth of the sitemap tree.
 */
module Sitemap {
  import opened Wrappers

  /** What the XML parser makes of a response body: the text of every `<loc>`
      element in document order, or a parse error. */
  datatype Document = Malformed | Locs(locs: seq<string>)

  /** One HTTP response: the status code and the parsed body. The body is
      only looked at when the status is 200. */
  datatype Response = Response(status: int, body: Document)

  /** The network together with the XML parser. */
  type Web = string -> Response

  const OK_STATUS: int := 200
  const WP_CONTENT: string := "wp-content"
  const XML_SUFFIX: string := "xml"

  /** Python's substring test `sub in s`. */
  predicate Contains(s: string, sub: string)
    decreases |s|
  {
    if |s| < |sub| then false
    else s[..|sub|] == sub || Contains(s[1..], sub)
  }

  /** `sub` occurs in `s` starting at position `i`. */
  predicate OccursAt(s: string, sub: string, i: nat)
  {
    i + |sub| <= |s| && s[i..i + |sub|] == sub
  }

  /** `sub in s` holds exactly when `sub` occurs in `s` at some position. */
  lemma {:induction false} ContainsSlice(s: string, sub: string)
    ensures Contains(s, sub) <==> exists i: nat :: OccursAt(s, sub, i)
    decreases |s|
  {
    if |s| < |sub| {
      forall i: nat ensures !OccursAt(s, sub, i) {
      }
    } else if s[..|sub|] == sub {
      assert OccursAt(s, sub, 0);
    } else {
      ContainsSlice(s[1..], sub);
      if Contains(s, sub) {
        var j: nat :| OccursAt(s[1..], sub, j);
        assert s[1..][j..j + |sub|] == s[j + 1..j + 1 + |sub|];
        assert OccursAt(s, sub, j + 1);
      }
      if exists i: nat :: OccursAt(s, sub, i) {
        var i: nat :| OccursAt(s, sub, i);
        if i > 0 {
          assert s[1..][i - 1..i - 1 + |sub|] == s[i..i + |sub|];
          assert OccursAt(s[1..], sub, i - 1);
        }
      }
    }
  }

  /** Python's `s[-3:]`: the last three characters, or all of `s` when shorter. */
  function LastThree(s: string): (r: string)
    ensures |r| == if |s| < 3 then |s| else 3
    ensures s == s[..|s| - |r|] + r
  {
    if |s| < 3 then s else s[|s| - 3..]
  }

  /** A kept loc is crawled as a nested sitemap exactly when it ends in `xml`
      (the bare suffix: `.../feedxml` qualifies, `.xml` is not required). */
  predicate IsSitemapLink(link: string)
  {
    |link| >= 3 && link[|link| - 3] == 'x' && link[|link| - 2] == 'm' && link[|link| - 1] == 'l'
  }

  /** Python's slice comparison is the suffix test: a loc shorter than three
      characters is never crawled. */
  lemma SitemapLinkIsSuffix(link: string)
    ensures IsSitemapLink(link) <==> LastThree(link) == XML_SUFFIX
    ensures IsSitemapLink(link) <==> |link| >= 3 && link[|link| - 3..] == XML_SUFFIX
  {
    if LastThree(link) == XML_SUFFIX {
      assert |link| >= 3;
      assert link[|link| - 3..][0] == 'x' && link[|link| - 3..][1] == 'm' && link[|link| - 3..][2] == 'l';
    }
  }

  /** A loc that survives the `wp-content` filter. */
  predicate Kept(link: string)
  {
    !Contains(link, WP_CONTENT)
  }

  /** A loc that the collector may append: kept and not a sitemap. */
  predicate IsPageLink(link: string)
  {
    Kept(link) && !IsSitemapLink(link)
  }

  /** The list comprehension over the parsed locs: those without
      `wp-content`, in document order. */
  function KeptLocs(locs: seq<string>): (r: seq<string>)
    ensures |r| <= |locs|
  {
    if locs == [] then []
    else (if Kept(locs[0]) then [locs[0]] else []) + KeptLocs(locs[1..])
  }

  /** The filter keeps exactly the locs without `wp-content`. */
  lemma {:induction false} KeptLocsMembers(locs: seq<string>)
    ensures forall l :: l in KeptLocs(locs) <==> l in locs && Kept(l)
  {
    if locs != [] {
      KeptLocsMembers(locs[1..]);
      assert locs == [locs[0]] + locs[1..];
    }
  }

  /** Whether a call at `url` with `fuel` levels left returns no result:
      no fuel, a status other than 200, or a body that does not parse. */
  predicate Abandons(web: Web, url: string, fuel: nat)
  {
    fuel == 0 || web(url).status != OK_STATUS || web(url).body.Malformed?
  }

  /** The links that a call at `url` appends to the accumulator, in order. */
  function Visit(web: Web, url: string, fuel: nat): seq<string>
    decreases fuel, 0
  {
    if Abandons(web, url, fuel) then []
    else Walk(web, KeptLocs(web(url).body.locs), fuel - 1)
  }

  /** What one iteration of the loop over the kept locs appends. */
  function Step(web: Web, link: string, fuel: nat): seq<string>
    decreases fuel, 1
  {
    if IsSitemapLink(link) then Visit(web, link, fuel) else [link]
  }

  /** What the loop over `links` appends, child sitemaps crawled with `fuel`. */
  function Walk(web: Web, links: seq<string>, fuel: nat): seq<string>
    decreases fuel, 2, |links|
  {
    if links == [] then []
    else Walk(web, links[..|links| - 1], fuel) + Step(web, links[|links| - 1], fuel)
  }

  /** One more iteration of the loop appends what the next link contributes. */
  lemma WalkSnoc(web: Web, links: seq<string>, i: nat, fuel: nat)
    requires i < |links|
    ensures Walk(web, links[..i + 1], fuel) == Walk(web, links[..i], fuel) + Step(web, links[i], fuel)
  {
    LastOf(links[..i], links[i]);
    assert links[..i + 1] == links[..i] + [links[i]];
  }

  /** Nothing the collector appends contains `wp-content` or ends in `xml`. */
  lemma {:induction false} VisitPages(web: Web, url: string, fuel: nat)
    ensures forall l :: l in Visit(web, url, fuel) ==> IsPageLink(l)
    decreases fuel, 0
  {
    if !Abandons(web, url, fuel) {
      KeptLocsMembers(web(url).body.locs);
      WalkPages(web, KeptLocs(web(url).body.locs), fuel - 1);
    }
  }

  lemma {:induction false} WalkPages(web: Web, links: seq<string>, fuel: nat)
    requires forall l :: l in links ==> Kept(l)
    ensures forall l :: l in Walk(web, links, fuel) ==> IsPageLink(l)
    decreases fuel, 1, |links|
  {
    if links != [] {
      var n := |links| - 1;
      assert links[n] in links;
      assert forall l :: l in links[..n] ==> l in links;
      WalkPages(web, links[..n], fuel);
      if IsSitemapLink(links[n]) {
        VisitPages(web, links[n], fuel);
      }
    }
  }

  /** One more iteration of the loop over the kept locs: appending what the
      `i`-th link yields extends the walk of the first `i` links by one. */
  lemma WalkExtends(web: Web, base: seq<string>, links: seq<string>, i: nat, fuel: nat,
                    before: seq<string>, after: seq<string>)
    requires i < |links|
    requires before == base + Walk(web, links[..i], fuel)
    requires after == before + Step(web, links[i], fuel)
    ensures after == base + Walk(web, links[..i + 1], fuel)
  {
    WalkSnoc(web, links, i, fuel);
    ConcatAssoc(base, Walk(web, links[..i], fuel), Step(web, links[i], fuel));
  }

  /** The mutable state of the collector: the list bound once to the default
      argument `all_links`, which every call, nested or top-level, appends to. */
  class Collector {
    var links: seq<string>

    constructor ()
      ensures links == []
    {
      links := [];
    }

    /** `get_sitemap_links(url)`: appends the pages reachable from `url` to
        `links` and returns them all, or returns nothing when this node is
        abandoned. Nested calls share `links`; their results are ignored. */
    method GetSitemapLinks(web: Web, url: string, fuel: nat) returns (r: Option<seq<string>>)
      modifies this
      decreases fuel
      ensures links == old(links) + Visit(web, url, fuel)
      ensures r.None? <==> Abandons(web, url, fuel)
      ensures r.None? ==> links == old(links)
      ensures r.Some? ==> r.value == links
    {
      if fuel == 0 {
        return None;
      }
      var response := web(url);
      if response.status != OK_STATUS {
        // the source reports the status code on standard output here
        return None;
      }
      if response.body.Malformed? {
        return None;
      }
      var kept := KeptLocs(response.body.locs);
      ghost var start := links;
      var i := 0;
      while i < |kept|
        invariant 0 <= i <= |kept|
        invariant links == start + Walk(web, kept[..i], fuel - 1)
      {
        var link := kept[i];
        ghost var before := links;
        if IsSitemapLink(link) {
          var _ := GetSitemapLinks(web, link, fuel - 1);
        } else {
          links := links + [link];
        }
        WalkExtends(web, start, kept, i, fuel - 1, before, links);
        i := i + 1;
      }
      assert kept[..i] == kept;
      return Some(links);
    }
  }

  /** Two top-level calls on one collector, as two calls of the source that
      rely on the default argument: the second result starts with everything
      the first call collected. */
  method CollectTwice(web: Web, first: string, second: string, fuel: nat)
    returns (r1: Option<seq<string>>, r2: Option<seq<string>>)
    ensures r1.None? <==> Abandons(web, first, fuel)
    ensures r2.None? <==> Abandons(web, second, fuel)
    ensures r1.Some? ==> r1.value == Visit(web, first, fuel)
    ensures r2.Some? ==> r2.value == Visit(web, first, fuel) + Visit(web, second, fuel)
  {
    var c := new Collector();
    r1 := c.GetSitemapLinks(web, first, fuel);
    r2 := c.GetSitemapLinks(web, second, fuel);
  }

  /** Which pages a crawl reaches, stated without the accumulator: a kept loc
      of `url`'s document that is not a sitemap, or a page reached from a kept
      loc that is a sitemap, one level down. */
  ghost predicate Reaches(web: Web, url: string, page: string, fuel: nat)
    decreases fuel, 1
  {
    !Abandons(web, url, fuel) &&
    exists l :: l in web(url).body.locs && Kept(l) && LinkReaches(web, l, page, fuel - 1)
  }

  /** `page` is reached through the loc `link`. */
  ghost predicate LinkReaches(web: Web, link: string, page: string, fuel: nat)
    decreases fuel, 2
  {
    if IsSitemapLink(link) then Reaches(web, link, page, fuel) else link == page
  }

  /** The collected pages are exactly the reachable ones. */
  lemma {:induction false} VisitReaches(web: Web, url: string, page: string, fuel: nat)
    ensures page in Visit(web, url, fuel) <==> Reaches(web, url, page, fuel)
    decreases fuel, 0
  {
    if !Abandons(web, url, fuel) {
      var locs := web(url).body.locs;
      KeptLocsMembers(locs);
      WalkReaches(web, KeptLocs(locs), page, fuel - 1);
    }
  }

  lemma {:induction false} WalkReaches(web: Web, links: seq<string>, page: string, fuel: nat)
    ensures page in Walk(web, links, fuel) <==> exists l :: l in links && LinkReaches(web, l, page, fuel)
    decreases fuel, 1, |links|
  {
    if links != [] {
      var n := |links| - 1;
      var pre, last := links[..n], links[n];
      assert links == pre + [last];
      WalkReaches(web, pre, page, fuel);
      if IsSitemapLink(last) {
        VisitReaches(web, last, page, fuel);
      }
      assert page in Step(web, last, fuel) <==> LinkReaches(web, last, page, fuel);
      if page in Walk(web, links, fuel) {
        if page in Walk(web, pre, fuel) {
          var l :| l in pre && LinkReaches(web, l, page, fuel);
          assert l in links;
        }
      }
      if exists l :: l in links && LinkReaches(web, l, page, fuel) {
        var l :| l in links && LinkReaches(web, l, page, fuel);
        if l != last {
          assert l in pre;
        }
      }
    }
  }

  /** The loop distributes over concatenation of the loc list. */
  lemma {:induction false} WalkConcat(web: Web, a: seq<string>, b: seq<string>, fuel: nat)
    ensures Walk(web, a + b, fuel) == Walk(web, a, fuel) + Walk(web, b, fuel)
    decreases |b|
  {
    if b == [] {
      assert a + b == a;
    } else {
      var n := |b| - 1;
      var ab, front := a + b, a + b[..n];
      assert ab[..|ab| - 1] == front;
      assert ab[|ab| - 1] == b[n];
      assert b == b[..n] + [b[n]];
      WalkConcat(web, a, b[..n], fuel);
      var wa, wb, last := Walk(web, a, fuel), Walk(web, b[..n], fuel), Step(web, b[n], fuel);
      assert Walk(web, ab, fuel) == (wa + wb) + last;
      assert Walk(web, b, fuel) == wb + last;
      ConcatAssoc(wa, wb, last);
    }
  }

  lemma ConcatAssoc<T>(x: seq<T>, y: seq<T>, z: seq<T>)
    ensures (x + y) + z == x + (y + z)
  {
  }

  /** Document order: what a node appends is what its kept locs before
      position `i` append, then what the loc at `i` appends, then the rest. */
  lemma VisitSplitsAt(web: Web, url: string, fuel: nat, i: nat)
    requires !Abandons(web, url, fuel)
    requires i < |KeptLocs(web(url).body.locs)|
    ensures var kept := KeptLocs(web(url).body.locs);
      Visit(web, url, fuel)
      == Walk(web, kept[..i], fuel - 1) + Step(web, kept[i], fuel - 1) + Walk(web, kept[i + 1..], fuel - 1)
  {
    WalkSplitsAt(web, KeptLocs(web(url).body.locs), i, fuel - 1);
  }

  /** The loop over `links` appends, in order, what the links before `i`
      yield, what `links[i]` yields, and what the links after it yield. */
  lemma WalkSplitsAt(web: Web, links: seq<string>, i: nat, fuel: nat)
    requires i < |links|
    ensures Walk(web, links, fuel)
      == Walk(web, links[..i], fuel) + Step(web, links[i], fuel) + Walk(web, links[i + 1..], fuel)
  {
    var pre, here, post := links[..i], links[i], links[i + 1..];
    SplitAt(links, i);
    WalkConcat(web, pre + [here], post, fuel);
    WalkSnoc(web, pre + [here], i, fuel);
    LastOf(pre, here);
  }

  lemma SplitAt<T>(s: seq<T>, i: nat)
    requires i < |s|
    ensures s == s[..i] + [s[i]] + s[i + 1..]
  {
  }

  lemma LastOf<T>(s: seq<T>, x: T)
    ensures (s + [x])[..|s|] == s && (s + [x])[|s|] == x
  {
  }

  /** A nested sitemap that fails (bad status, parse error, no fuel) adds
      nothing, and its siblings still contribute in order. */
  lemma FailedChildSkipped(web: Web, url: string, fuel: nat, i: nat)
    requires !Abandons(web, url, fuel)
    requires i < |KeptLocs(web(url).body.locs)|
    requires IsSitemapLink(KeptLocs(web(url).body.locs)[i])
    requires Abandons(web, KeptLocs(web(url).body.locs)[i], fuel - 1)
    ensures var kept := KeptLocs(web(url).body.locs);
      Visit(web, url, fuel) == Walk(web, kept[..i], fuel - 1) + Walk(web, kept[i + 1..], fuel - 1)
  {
    VisitSplitsAt(web, url, fuel, i);
  }

  /** A loop over locs none of which is a sitemap appends them all, in order. */
  lemma {:induction false} WalkOfPages(web: Web, links: seq<string>, fuel: nat)
    requires forall l :: l in links ==> !IsSitemapLink(l)
    ensures Walk(web, links, fuel) == links
    decreases |links|
  {
    if links != [] {
      var n := |links| - 1;
      WalkOfPages(web, links[..n], fuel);
      assert links == links[..n] + [links[n]];
    }
  }

  /** A sitemap whose kept locs are all pages contributes exactly those locs,
      in document order. */
  lemma FlatSitemap(web: Web, url: string, fuel: nat)
    requires !Abandons(web, url, fuel)
    requires forall l :: l in web(url).body.locs && Kept(l) ==> !IsSitemapLink(l)
    ensures Visit(web, url, fuel) == KeptLocs(web(url).body.locs)
  {
    var locs := web(url).body.locs;
    var kept := KeptLocs(locs);
    KeptLocsMembers(locs);
    assert forall l :: l in kept ==> !IsSitemapLink(l);
    WalkOfPages(web, kept, fuel - 1);
    assert Visit(web, url, fuel) == Walk(web, kept, fuel - 1);
  }

  /** The sitemap tree below `url` is at most `fuel` levels deep: every node
      that is fetched either fails or has only children that settle one level
      down. */
  predicate Settles(web: Web, url: string, fuel: nat)
    decreases fuel, 0
  {
    fuel > 0 &&
    (web(url).status != OK_STATUS || web(url).body.Malformed? ||
     WalkSettles(web, KeptLocs(web(url).body.locs), fuel - 1))
  }

  predicate WalkSettles(web: Web, links: seq<string>, fuel: nat)
    decreases fuel, 1, |links|
  {
    links == [] ||
    (WalkSettles(web, links[..|links| - 1], fuel) &&
     (IsSitemapLink(links[|links| - 1]) ==> Settles(web, links[|links| - 1], fuel)))
  }

  /** Once the fuel covers the depth of the tree, more fuel changes nothing:
      the model then collects what the unbounded recursion of the source does. */
  lemma {:induction false} FuelAdequate(web: Web, url: string, fuel: nat, more: nat)
    requires Settles(web, url, fuel) && fuel <= more
    ensures Settles(web, url, more)
    ensures Visit(web, url, more) == Visit(web, url, fuel)
    decreases fuel, 0
  {
    if web(url).status == OK_STATUS && web(url).body.Locs? {
      WalkFuelAdequate(web, KeptLocs(web(url).body.locs), fuel - 1, more - 1);
    }
  }

  lemma {:induction false} WalkFuelAdequate(web: Web, links: seq<string>, fuel: nat, more: nat)
    requires WalkSettles(web, links, fuel) && fuel <= more
    ensures WalkSettles(web, links, more)
    ensures Walk(web, links, more) == Walk(web, links, fuel)
    decreases fuel, 1, |links|
  {
    if links != [] {
      var n := |links| - 1;
      WalkFuelAdequate(web, links[..n], fuel, more);
      if IsSitemapLink(links[n]) {
        FuelAdequate(web, links[n], fuel, more);
      }
    }
  }
}
