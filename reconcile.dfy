/**
 * The reconciliation in the script's main block: the right join of the
 * analytics table onto the sitemap pages, the zero-click view sorted by
 * impressions, and the set algebra that yields the not-indexed pages and
 * the index bloat.
 *
 * Tables are sequences of rows. The lists the source builds with
 * `list(set(...))` have no defined order, so they are sets here.
 */
module Reconcile {
  import opened Wrappers

  /** One row of the analytics table `df_gsc`, whose single dimension is `page`. */
  datatype GscRow = GscRow(page: string, clicks: int, impressions: int)

  /** The metric columns that the join copies from the analytics table. */
  datatype Metrics = Metrics(clicks: int, impressions: int)

  /** One row of `df_merged`: a sitemap page and its metrics, absent (NaN in
      the source) when the analytics table has no row for the page. */
  datatype MergedRow = MergedRow(page: string, metrics: Option<Metrics>)

  /** The joined row that an analytics row produces. */
  function Joined(g: GscRow): MergedRow
  {
    MergedRow(g.page, Some(Metrics(g.clicks, g.impressions)))
  }

  /** Python's `set(xs)`. */
  function SetOf(xs: seq<string>): set<string>
  {
    set x | x in xs
  }

  /** `df_gsc['page'].tolist()`. */
  function Pages(gsc: seq<GscRow>): (pages: seq<string>)
    ensures |pages| == |gsc|
    ensures forall i :: 0 <= i < |gsc| ==> pages[i] == gsc[i].page
  {
    seq(|gsc|, i requires 0 <= i < |gsc| => gsc[i].page)
  }

  /** Whether some analytics row is about `page`. */
  predicate Reported(gsc: seq<GscRow>, page: string)
  {
    exists g :: g in gsc && g.page == page
  }

  /** The analytics rows about `page`, joined, in table order. */
  function Matches(gsc: seq<GscRow>, page: string): (r: seq<MergedRow>)
    ensures forall m :: m in r ==> exists g :: g in gsc && g.page == page && m == Joined(g)
    ensures r == [] <==> !Reported(gsc, page)
  {
    if gsc == [] then []
    else
      var rest := Matches(gsc[1..], page);
      assert Reported(gsc, page) <==> gsc[0].page == page || Reported(gsc[1..], page) by {
        assert forall g :: g in gsc <==> g == gsc[0] || g in gsc[1..];
      }
      (if gsc[0].page == page then [Joined(gsc[0])] else []) + rest
  }

  /** The rows the join produces for one sitemap entry: every matching
      analytics row, or one row without metrics when nothing matches. */
  function JoinEntry(gsc: seq<GscRow>, page: string): (r: seq<MergedRow>)
    ensures |r| >= 1
    ensures r == [MergedRow(page, None)] <==> !Reported(gsc, page)
  {
    var ms := Matches(gsc, page);
    if ms == [] then [MergedRow(page, None)]
    else
      assert ms[0] in ms;
      ms
  }

  /** `pd.merge(df_gsc, df_sitemap, how='right', on=['page'])`: the sitemap
      entries in order, each expanded into its joined rows. */
  function RightJoin(gsc: seq<GscRow>, sitemap: seq<string>): (r: seq<MergedRow>)
    ensures forall m :: m in r ==> m.page in sitemap
    ensures forall m :: m in r && m.metrics.None? ==> !Reported(gsc, m.page)
    ensures forall m :: m in r && m.metrics.Some? ==> exists g :: g in gsc && m == Joined(g)
  {
    if sitemap == [] then []
    else
      assert forall p :: p in sitemap[1..] ==> p in sitemap;
      JoinEntry(gsc, sitemap[0]) + RightJoin(gsc, sitemap[1..])
  }

  /** Every sitemap entry has at least one row in the join, whether or not
      the analytics table reports it. */
  lemma {:induction false} RightJoinKeepsSitemap(gsc: seq<GscRow>, sitemap: seq<string>, p: string)
    requires p in sitemap
    ensures exists m :: m in RightJoin(gsc, sitemap) && m.page == p
  {
    if sitemap[0] == p {
      var head := JoinEntry(gsc, p);
      var ms := Matches(gsc, p);
      var m := if ms != [] then ms[0] else head[0];
      assert m in head && m.page == p;
      assert m in RightJoin(gsc, sitemap);
    } else {
      RightJoinKeepsSitemap(gsc, sitemap[1..], p);
      var m :| m in RightJoin(gsc, sitemap[1..]) && m.page == p;
      assert m in RightJoin(gsc, sitemap);
    }
  }

  /** No page occurs in two rows of the analytics table, which holds of the
      table that a query with the single dimension `page` returns. */
  predicate DistinctPages(gsc: seq<GscRow>)
  {
    forall i, j :: 0 <= i < j < |gsc| ==> gsc[i].page != gsc[j].page
  }

  /** The metrics of the first analytics row about `page`. */
  function Lookup(gsc: seq<GscRow>, page: string): (r: Option<Metrics>)
    ensures r.None? <==> !Reported(gsc, page)
    ensures r.Some? ==> exists g :: g in gsc && g.page == page && r.value == Metrics(g.clicks, g.impressions)
  {
    if gsc == [] then None
    else if gsc[0].page == page then Some(Metrics(gsc[0].clicks, gsc[0].impressions))
    else
      assert forall g :: g in gsc <==> g == gsc[0] || g in gsc[1..];
      Lookup(gsc[1..], page)
  }

  /** With distinct pages, the matches of a page are its one row, if any. */
  lemma {:induction false} MatchesOfDistinct(gsc: seq<GscRow>, page: string)
    requires DistinctPages(gsc)
    ensures Matches(gsc, page) == if Lookup(gsc, page).Some? then [MergedRow(page, Lookup(gsc, page))] else []
  {
    if gsc != [] {
      assert DistinctPages(gsc[1..]) by {
        forall i, j | 0 <= i < j < |gsc| - 1 ensures gsc[1..][i].page != gsc[1..][j].page {
          assert gsc[1..][i] == gsc[i + 1] && gsc[1..][j] == gsc[j + 1];
        }
      }
      MatchesOfDistinct(gsc[1..], page);
      if gsc[0].page == page {
        NotReported(gsc[1..], page);
      }
    }
  }

  /** When no row of `gsc` is about `page`, the page has no matches. */
  lemma NotReported(gsc: seq<GscRow>, page: string)
    requires forall g :: g in gsc ==> g.page != page
    ensures Matches(gsc, page) == []
  {
  }

  /** When the analytics pages are distinct, the right join has exactly one
      row per sitemap entry, in sitemap order, carrying the entry's metrics
      or none when the analytics table does not report it. */
  lemma {:induction false} RightJoinOnePerEntry(gsc: seq<GscRow>, sitemap: seq<string>)
    requires DistinctPages(gsc)
    ensures |RightJoin(gsc, sitemap)| == |sitemap|
    ensures forall i :: 0 <= i < |sitemap| ==>
              RightJoin(gsc, sitemap)[i] == MergedRow(sitemap[i], Lookup(gsc, sitemap[i]))
  {
    if sitemap != [] {
      RightJoinOnePerEntry(gsc, sitemap[1..]);
      MatchesOfDistinct(gsc, sitemap[0]);
      var head := JoinEntry(gsc, sitemap[0]);
      assert head == [MergedRow(sitemap[0], Lookup(gsc, sitemap[0]))];
      var r := RightJoin(gsc, sitemap);
      assert r == head + RightJoin(gsc, sitemap[1..]);
      forall i | 0 <= i < |sitemap|
        ensures r[i] == MergedRow(sitemap[i], Lookup(gsc, sitemap[i]))
      {
        if i > 0 {
          assert r[i] == RightJoin(gsc, sitemap[1..])[i - 1];
          assert sitemap[1..][i - 1] == sitemap[i];
        }
      }
    }
  }

  /** `df_merged['clicks'] < 1`: a row whose clicks are missing compares false. */
  predicate NoClicks(m: MergedRow)
  {
    m.metrics.Some? && m.metrics.value.clicks < 1
  }

  /** `df_merged[df_merged['clicks'] < 1]`: the selected rows, in order. */
  function FilterNoClicks(rows: seq<MergedRow>): (r: seq<MergedRow>)
    ensures forall m :: multiset(r)[m] == if NoClicks(m) then multiset(rows)[m] else 0
  {
    if rows == [] then []
    else
      assert rows == [rows[0]] + rows[1..];
      (if NoClicks(rows[0]) then [rows[0]] else []) + FilterNoClicks(rows[1..])
  }

  /** The order of `sort_values(by='impressions', ascending=False)`: more
      impressions first, rows without a value (NaN) last. */
  predicate AtLeast(a: MergedRow, b: MergedRow)
  {
    b.metrics.None? || (a.metrics.Some? && a.metrics.value.impressions >= b.metrics.value.impressions)
  }

  /** Ordered by impressions, non-increasing: each row is at least its successor. */
  predicate Descending(rows: seq<MergedRow>)
  {
    forall i :: 0 <= i < |rows| - 1 ==> AtLeast(rows[i], rows[i + 1])
  }

  /** In a descending sequence every row is at least every later row. */
  lemma {:induction false} DescendingAllPairs(rows: seq<MergedRow>, i: nat, j: nat)
    requires Descending(rows) && i < j < |rows|
    ensures AtLeast(rows[i], rows[j])
    decreases j - i
  {
    if i + 1 < j {
      DescendingAllPairs(rows, i + 1, j);
      assert AtLeast(rows[i], rows[i + 1]);
    }
  }

  /** Inserts `x` into rows already ordered by impressions. */
  function Insert(x: MergedRow, rows: seq<MergedRow>): (r: seq<MergedRow>)
    requires Descending(rows)
    ensures multiset(r) == multiset(rows) + multiset{x}
    ensures Descending(r)
    ensures |r| > 0 && (r[0] == x || (|rows| > 0 && r[0] == rows[0]))
  {
    if rows == [] then [x]
    else if AtLeast(x, rows[0]) then [x] + rows
    else
      var tail := rows[1..];
      assert Descending(tail) by {
        forall i | 0 <= i < |tail| - 1 ensures AtLeast(tail[i], tail[i + 1]) {
          assert tail[i] == rows[i + 1] && tail[i + 1] == rows[i + 2];
        }
      }
      var rest := Insert(x, tail);
      assert AtLeast(rows[0], rest[0]) by {
        if rest[0] != x {
          assert rest[0] == rows[1];
        }
      }
      var r := [rows[0]] + rest;
      assert rows == [rows[0]] + tail;
      assert multiset(r) == multiset{rows[0]} + multiset(rest);
      assert multiset(rows) == multiset{rows[0]} + multiset(tail);
      assert multiset(r) == multiset(rows) + multiset{x} by {
        MultisetShuffle(multiset{rows[0]}, multiset(tail), multiset{x});
      }
      assert Descending(r) by {
        forall i | 0 <= i < |r| - 1 ensures AtLeast(r[i], r[i + 1]) {
          if i > 0 {
            assert r[i] == rest[i - 1] && r[i + 1] == rest[i];
          }
        }
      }
      r
  }

  lemma MultisetShuffle<T>(a: multiset<T>, b: multiset<T>, c: multiset<T>)
    ensures a + (b + c) == (a + b) + c
  {
  }

  /** `sort_values(by='impressions', ascending=False)`: the same rows,
      ordered by impressions, non-increasing. */
  function SortByImpressions(rows: seq<MergedRow>): (r: seq<MergedRow>)
    ensures multiset(r) == multiset(rows)
    ensures Descending(r)
  {
    if rows == [] then []
    else
      assert rows == [rows[0]] + rows[1..];
      Insert(rows[0], SortByImpressions(rows[1..]))
  }

  /** The zero-click view: the rows with clicks present and below one,
      ordered by impressions, non-increasing. */
  function ZeroClickRows(merged: seq<MergedRow>): (r: seq<MergedRow>)
    ensures forall m :: multiset(r)[m] == if NoClicks(m) then multiset(merged)[m] else 0
    ensures Descending(r)
  {
    SortByImpressions(FilterNoClicks(merged))
  }

  /** Everything the main block derives from the two tables. */
  datatype Report = Report(
    merged: seq<MergedRow>,
    noClicks: seq<MergedRow>,
    allLinks: set<string>,
    shared: set<string>,
    notIndexed: set<string>,
    indexBloat: set<string>)

  /** The main block after both tables are built: the union, the
      intersection and the two differences, taken over `all_links`. */
  function MainBlock(sitemapLinks: seq<string>, gsc: seq<GscRow>): (r: Report)
    ensures r.merged == RightJoin(gsc, sitemapLinks)
    ensures r.allLinks == SetOf(sitemapLinks) + SetOf(Pages(gsc))
    ensures r.shared == SetOf(sitemapLinks) * SetOf(Pages(gsc))
    ensures r.notIndexed == SetOf(sitemapLinks) - SetOf(Pages(gsc))
    ensures r.indexBloat == SetOf(Pages(gsc)) - SetOf(sitemapLinks)
    ensures forall m :: multiset(r.noClicks)[m] == if NoClicks(m) then multiset(r.merged)[m] else 0
    ensures Descending(r.noClicks)
  {
    var merged := RightJoin(gsc, sitemapLinks);
    var gscLinks := Pages(gsc);
    var s, g := SetOf(sitemapLinks), SetOf(gscLinks);
    var allLinks := SetOf(sitemapLinks + gscLinks);
    assert allLinks == s + g by {
      SetOfConcat(sitemapLinks, gscLinks);
    }
    SetAlgebra(s, g);
    Report(merged, ZeroClickRows(merged), allLinks, s * g, allLinks - g, allLinks - s)
  }

  /** `set(xs + ys)` is the union of the two sets. */
  lemma SetOfConcat(xs: seq<string>, ys: seq<string>)
    ensures SetOf(xs + ys) == SetOf(xs) + SetOf(ys)
  {
    assert forall x :: x in xs + ys <==> x in xs || x in ys;
  }

  /** The not-indexed pages and the shared pages split the sitemap pages
      between them, the index bloat and the shared pages split the reported
      pages, and the total counts the shared pages once. */
  lemma ReconcilePartitions(sitemapLinks: seq<string>, gsc: seq<GscRow>)
    ensures var r := MainBlock(sitemapLinks, gsc);
      r.notIndexed + r.shared == SetOf(sitemapLinks) && r.notIndexed !! r.shared &&
      r.indexBloat + r.shared == SetOf(Pages(gsc)) && r.indexBloat !! r.shared &&
      |r.allLinks| == |SetOf(sitemapLinks)| + |SetOf(Pages(gsc))| - |r.shared|
  {
    SetAlgebra(SetOf(sitemapLinks), SetOf(Pages(gsc)));
  }

  /** The differences taken over the union are the plain differences, and
      with the intersection they partition each side. */
  lemma SetAlgebra(s: set<string>, g: set<string>)
    ensures (s + g) - g == s - g && (s + g) - s == g - s
    ensures (s - g) + (s * g) == s && (s - g) !! (s * g)
    ensures (g - s) + (s * g) == g && (g - s) !! (s * g)
    ensures |s + g| == |s| + |g| - |s * g|
  {
  }

  /** Three sitemap pages, three reported pages, two in common. */
  lemma ScenarioSets(a: string, b: string, c: string, d: string)
    requires a != b && a != c && a != d && b != c && b != d && c != d
    ensures var r := MainBlock([a, b, c], [GscRow(b, 1, 5), GscRow(c, 0, 3), GscRow(d, 2, 9)]);
      r.notIndexed == {a} && r.indexBloat == {d} && r.shared == {b, c} && |r.allLinks| == 4
  {
    var sitemap, gsc := [a, b, c], [GscRow(b, 1, 5), GscRow(c, 0, 3), GscRow(d, 2, 9)];
    assert Pages(gsc) == [b, c, d];
    assert SetOf(sitemap) == {a, b, c};
    assert SetOf(Pages(gsc)) == {b, c, d};
    var s, g := {a, b, c}, {b, c, d};
    assert s * g == {b, c};
    assert s - g == {a};
    assert g - s == {d};
    assert s + g == {a, b, c, d};
    FourDistinct(a, b, c, d);
  }

  lemma FourDistinct<T>(a: T, b: T, c: T, d: T)
    requires a != b && a != c && a != d && b != c && b != d && c != d
    ensures |{a, b, c, d}| == 4
  {
  }

  /** With distinct analytics pages, the row of a sitemap entry is in the
      zero-click view exactly when the entry is reported with fewer than one
      click: a page that is not reported has missing clicks and is left out. */
  lemma ZeroClickSelection(sitemap: seq<string>, gsc: seq<GscRow>, i: nat)
    requires DistinctPages(gsc) && i < |sitemap|
    ensures var row := MergedRow(sitemap[i], Lookup(gsc, sitemap[i]));
      row in MainBlock(sitemap, gsc).noClicks <==>
      Lookup(gsc, sitemap[i]).Some? && Lookup(gsc, sitemap[i]).value.clicks < 1
  {
    var row := MergedRow(sitemap[i], Lookup(gsc, sitemap[i]));
    var r := MainBlock(sitemap, gsc);
    RightJoinOnePerEntry(gsc, sitemap);
    assert r.merged[i] == row;
    assert row in multiset(r.merged);
    assert row in r.noClicks <==> multiset(r.noClicks)[row] > 0;
  }
}
