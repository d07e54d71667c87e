/**
 * The activity-page gallery (`GalleryFilter` in script.js): category filter
 * buttons, a page cursor, and a "load more" control.
 *
 * The DOM is abstracted to a sequence of items in document order, each with
 * its `data-category` attribute; the effect of one filtering pass is a
 * `Display`, which says per item whether it is shown and whether the
 * load-more control is.
 */
module Gallery {

  import opened Basics

  /** A `.gallery-item`; `category` is its `data-category` attribute, `None` when absent. */
  datatype Item = Item(category: Option<string>)

  /** `itemsPerPage`: both the initial cursor and the step of "load more". */
  const ItemsPerPage: nat := 9

  /** The filter value that matches every item. */
  const ShowAll: string := "all"

  /** A button's `data-filter` attribute, `None` when the button has none. */
  type Filter = Option<string>

  /** `filter === 'all' || item.dataset.category === filter`. A button without
      `data-filter` compares `undefined` with `undefined`, so it matches exactly
      the items without `data-category`. */
  predicate Matches(filter: Filter, item: Item)
    ensures filter == Some(ShowAll) ==> Matches(filter, item)
    ensures filter == None ==> (Matches(filter, item) <==> item.category == None)
    ensures filter.Some? && filter != Some(ShowAll) ==> (Matches(filter, item) <==> item.category == filter)
  {
    filter == Some(ShowAll) || item.category == filter
  }

  /** The items matching `filter`, in document order
      (`Array.from(galleryItems).filter(...)`). */
  function MatchingItems(items: seq<Item>, filter: Filter): (r: seq<Item>)
    ensures |r| <= |items|
    ensures forall k :: 0 <= k < |r| ==> Matches(filter, r[k])
  {
    if items == [] then []
    else
      var last := items[|items| - 1];
      MatchingItems(items[..|items| - 1], filter) + (if Matches(filter, last) then [last] else [])
  }

  /** Filtering keeps document order: the matching items of two consecutive
      runs of items are those of the first run followed by those of the second. */
  lemma {:induction false} MatchingItemsAppend(a: seq<Item>, b: seq<Item>, filter: Filter)
    ensures MatchingItems(a + b, filter) == MatchingItems(a, filter) + MatchingItems(b, filter)
  {
    if b == [] {
      assert a + b == a;
    } else {
      var ab := a + b;
      var init := b[..|b| - 1];
      var last := b[|b| - 1];
      assert ab[..|ab| - 1] == a + init && ab[|ab| - 1] == last;
      MatchingItemsAppend(a, init, filter);
      var tail := if Matches(filter, last) then [last] else [];
      assert MatchingItems(ab, filter) == MatchingItems(a + init, filter) + tail;
      assert MatchingItems(b, filter) == MatchingItems(init, filter) + tail;
    }
  }

  /** Filtering keeps every matching item, as often as it occurs, and nothing else. */
  lemma {:induction false} MatchingItemsCount(items: seq<Item>, filter: Filter, x: Item)
    ensures multiset(MatchingItems(items, filter))[x] == if Matches(filter, x) then multiset(items)[x] else 0
  {
    if items != [] {
      var init := items[..|items| - 1];
      var last := items[|items| - 1];
      MatchingItemsCount(init, filter, x);
      assert items == init + [last];
      var tail := if Matches(filter, last) then [last] else [];
      assert MatchingItems(items, filter) == MatchingItems(init, filter) + tail;
      assert multiset(MatchingItems(items, filter)) == multiset(MatchingItems(init, filter)) + multiset(tail);
    }
  }

  /** Number of `true` flags. */
  function CountTrue(flags: seq<bool>): nat {
    if flags == [] then 0
    else CountTrue(flags[..|flags| - 1]) + (if flags[|flags| - 1] then 1 else 0)
  }

  /** The items whose flag is set, in document order. */
  function Select(items: seq<Item>, flags: seq<bool>): seq<Item>
    requires |flags| == |items|
  {
    if items == [] then []
    else
      var n := |items| - 1;
      Select(items[..n], flags[..n]) + (if flags[n] then [items[n]] else [])
  }

  /** Position of item `k` among the matching items: how many matching items precede it. */
  function Rank(items: seq<Item>, filter: Filter, k: nat): nat
    requires k <= |items|
  {
    |MatchingItems(items[..k], filter)|
  }

  /** What one filtering pass leaves on the page. */
  datatype Display = Display(shown: seq<bool>, loadMore: bool)

  /** `shown[k]` holds exactly for the matching items ranked below the cursor
      among the matching items before them. */
  ghost predicate ShowsFirstMatching(items: seq<Item>, filter: Filter, currentItems: nat, shown: seq<bool>) {
    && |shown| == |items|
    && forall k: nat {:trigger Rank(items, filter, k)} :: 0 <= k < |items| ==>
         (shown[k] <==> Matches(filter, items[k]) && Rank(items, filter, k) < currentItems)
  }

  /** The `forEach` of `filterGallery` from item `i` on, `visible` being the
      number of items shown so far. Returns the flags of items `i..` and the
      final visible count. */
  function ShowFrom(items: seq<Item>, filter: Filter, currentItems: nat, i: nat, visible: nat): (r: (seq<bool>, nat))
    requires i <= |items|
    requires visible == Min(currentItems, Rank(items, filter, i))
    decreases |items| - i
    ensures |r.0| == |items| - i
    ensures r.1 == Min(currentItems, |MatchingItems(items, filter)|)
    ensures forall k: nat :: i <= k < |items| ==>
      (r.0[k - i] <==> Matches(filter, items[k]) && Rank(items, filter, k) < currentItems)
  {
    if i == |items| then
      assert items[..i] == items;
      ([], visible)
    else
      assert items[..i + 1][..i] == items[..i];
      assert Rank(items, filter, i + 1) == Rank(items, filter, i) + (if Matches(filter, items[i]) then 1 else 0);
      var shownHere := Matches(filter, items[i]) && visible < currentItems;
      var visible' := if shownHere then visible + 1 else visible;
      var rest := ShowFrom(items, filter, currentItems, i + 1, visible');
      ([shownHere] + rest.0, rest.1)
  }

  /** `filterGallery(filter)` with cursor `currentItems`: shows the first
      `currentItems` matching items, hides the rest, and shows the load-more
      control when some matching item stayed hidden. */
  function FilterGallery(items: seq<Item>, filter: Filter, currentItems: nat): (d: Display)
    ensures ShowsFirstMatching(items, filter, currentItems, d.shown)
    ensures forall k :: 0 <= k < |d.shown| && d.shown[k] ==> Matches(filter, items[k])
    ensures forall k :: 0 <= k < |d.shown| && !Matches(filter, items[k]) ==> !d.shown[k]
    ensures d.loadMore <==> currentItems < |MatchingItems(items, filter)|
  {
    assert items[..0] == [];
    var (shown, visibleCount) := ShowFrom(items, filter, currentItems, 0, 0);
    var totalVisible := |MatchingItems(items, filter)|;
    Display(shown, visibleCount < totalVisible)
  }

  /** Over every prefix, the number of shown items is the cursor or the number of matching items, whichever is smaller. */
  lemma {:induction false} ShownCountPrefix(items: seq<Item>, filter: Filter, currentItems: nat, shown: seq<bool>, n: nat)
    requires ShowsFirstMatching(items, filter, currentItems, shown)
    requires n <= |items|
    ensures CountTrue(shown[..n]) == Min(currentItems, |MatchingItems(items[..n], filter)|)
  {
    if n == 0 {
      assert items[..0] == [] && shown[..0] == [];
    } else {
      var m := n - 1;
      ShownCountPrefix(items, filter, currentItems, shown, m);
      assert items[..n][..m] == items[..m];
      assert shown[..n][..m] == shown[..m];
      assert shown[m] <==> Matches(filter, items[m]) && Rank(items, filter, m) < currentItems;
      assert |MatchingItems(items[..n], filter)| == |MatchingItems(items[..m], filter)| + (if Matches(filter, items[m]) then 1 else 0);
    }
  }

  /** Over every prefix, the shown items are the leading matching items, in order. */
  lemma {:induction false} ShownSelectPrefix(items: seq<Item>, filter: Filter, currentItems: nat, shown: seq<bool>, n: nat)
    requires ShowsFirstMatching(items, filter, currentItems, shown)
    requires n <= |items|
    ensures Select(items[..n], shown[..n]) == MatchingItems(items[..n], filter)[..Min(currentItems, |MatchingItems(items[..n], filter)|)]
  {
    if n == 0 {
      assert items[..0] == [] && shown[..0] == [];
    } else {
      var m := n - 1;
      ShownSelectPrefix(items, filter, currentItems, shown, m);
      ShownCountPrefix(items, filter, currentItems, shown, m);
      assert items[..n][..m] == items[..m];
      assert shown[..n][..m] == shown[..m];
      assert shown[m] <==> Matches(filter, items[m]) && Rank(items, filter, m) < currentItems;
      var before := MatchingItems(items[..m], filter);
      var c := CountTrue(shown[..m]);
      assert Select(items[..n], shown[..n]) == Select(items[..m], shown[..m]) + (if shown[m] then [items[m]] else []);
      assert MatchingItems(items[..n], filter) == before + (if Matches(filter, items[m]) then [items[m]] else []);
      if shown[m] {
        assert (before + [items[m]])[..c + 1] == before[..c] + [items[m]];
      } else if Matches(filter, items[m]) {
        assert (before + [items[m]])[..c] == before[..c];
      }
    }
  }

  /** The shown items are exactly the first `min(currentItems, #matching)`
      matching items, in document order; so never more than the cursor, and
      the load-more control is visible exactly when a matching item is hidden. */
  lemma ShownAreFirstPage(items: seq<Item>, filter: Filter, currentItems: nat)
    ensures CountTrue(FilterGallery(items, filter, currentItems).shown) <= currentItems
    ensures CountTrue(FilterGallery(items, filter, currentItems).shown) <= |MatchingItems(items, filter)|
    ensures CountTrue(FilterGallery(items, filter, currentItems).shown) == currentItems
         || CountTrue(FilterGallery(items, filter, currentItems).shown) == |MatchingItems(items, filter)|
    ensures Select(items, FilterGallery(items, filter, currentItems).shown)
         == MatchingItems(items, filter)[..CountTrue(FilterGallery(items, filter, currentItems).shown)]
    ensures FilterGallery(items, filter, currentItems).loadMore
        <==> CountTrue(FilterGallery(items, filter, currentItems).shown) < |MatchingItems(items, filter)|
  {
    var d := FilterGallery(items, filter, currentItems);
    ShownCountPrefix(items, filter, currentItems, d.shown, |items|);
    ShownSelectPrefix(items, filter, currentItems, d.shown, |items|);
    assert items[..|items|] == items && d.shown[..|items|] == d.shown;
  }

  // ---------------------------------------------------------------------
  // The initial display (`hideExtraItems`)
  // ---------------------------------------------------------------------

  /** `hideExtraItems`: items from position `itemsPerPage` on are hidden; the
      others keep the display they have in the markup, taken to be shown. */
  function InitialShown(items: seq<Item>): (shown: seq<bool>)
    ensures |shown| == |items|
  {
    seq(|items|, k => k < ItemsPerPage)
  }

  lemma {:induction false} AllMatchesEverything(items: seq<Item>)
    ensures MatchingItems(items, Some(ShowAll)) == items
  {
    if items != [] {
      AllMatchesEverything(items[..|items| - 1]);
    }
  }

  /** The initial item visibility equals filtering by "all" with the initial cursor. */
  lemma InitialIsShowAll(items: seq<Item>)
    ensures InitialShown(items) == FilterGallery(items, Some(ShowAll), ItemsPerPage).shown
  {
    var d := FilterGallery(items, Some(ShowAll), ItemsPerPage);
    forall k | 0 <= k < |items|
      ensures d.shown[k] == InitialShown(items)[k]
    {
      AllMatchesEverything(items[..k]);
    }
  }

  // ---------------------------------------------------------------------
  // The pager: filter clicks and load-more clicks
  // ---------------------------------------------------------------------

  /** The state `GalleryFilter` keeps: the cursor `currentItems` and, when a
      button is marked active, that button's filter (`None` when no button is). */
  datatype Pager = Pager(currentItems: nat, active: Option<Filter>)

  /** The state after construction; which button is active comes from the markup. */
  function InitialPager(active: Option<Filter>): Pager {
    Pager(ItemsPerPage, active)
  }

  datatype Event = FilterClick(filter: Filter) | LoadMoreClick

  /** The load-more handler reads the active button without a null check. */
  predicate Enabled(p: Pager, e: Event) {
    e.LoadMoreClick? ==> p.active.Some?
  }

  /** One click. A filter click marks its button active and keeps the cursor;
      a load-more click advances the cursor by one page and keeps the filter. */
  function Step(p: Pager, e: Event): (p': Pager)
    requires Enabled(p, e)
    ensures p'.active.Some?
    ensures p'.currentItems >= p.currentItems
    ensures e.FilterClick? ==> p'.currentItems == p.currentItems && p'.active == Some(e.filter)
    ensures e.LoadMoreClick? ==> p'.currentItems == p.currentItems + ItemsPerPage && p'.active == p.active
  {
    match e
    case FilterClick(f) => Pager(p.currentItems, Some(f))
    case LoadMoreClick => Pager(p.currentItems + ItemsPerPage, p.active)
  }

  /** What the page shows after a click: both handlers end with
      `filterGallery` on the active filter and the current cursor. */
  function Render(items: seq<Item>, p: Pager): (d: Display)
    requires p.active.Some?
    ensures |d.shown| == |items|
    ensures ShowsFirstMatching(items, p.active.value, p.currentItems, d.shown)
    ensures forall k :: 0 <= k < |items| && d.shown[k] ==> Matches(p.active.value, items[k])
    ensures d.loadMore <==> p.currentItems < |MatchingItems(items, p.active.value)|
  {
    FilterGallery(items, p.active.value, p.currentItems)
  }

  predicate RunEnabled(p: Pager, events: seq<Event>)
    decreases |events|
  {
    events == [] || (Enabled(p, events[0]) && RunEnabled(Step(p, events[0]), events[1..]))
  }

  /** The state after a series of clicks. */
  function Run(p: Pager, events: seq<Event>): (q: Pager)
    requires RunEnabled(p, events)
    ensures p.active.Some? || events != [] ==> q.active.Some?
    decreases |events|
  {
    if events == [] then p else Run(Step(p, events[0]), events[1..])
  }

  function LoadMoreCount(events: seq<Event>): nat {
    if events == [] then 0
    else (if events[0].LoadMoreClick? then 1 else 0) + LoadMoreCount(events[1..])
  }

  /** The cursor only moves on load-more clicks, by one page each: filter
      clicks never reset it, and it never decreases. */
  lemma {:induction false} CursorCountsLoadMores(p: Pager, events: seq<Event>)
    requires RunEnabled(p, events)
    ensures Run(p, events).currentItems == p.currentItems + ItemsPerPage * LoadMoreCount(events)
    ensures Run(p, events).currentItems >= p.currentItems
    decreases |events|
  {
    if events != [] {
      CursorCountsLoadMores(Step(p, events[0]), events[1..]);
    }
  }

  /** From the state after construction, the cursor is one page per load-more
      click plus the initial page. */
  lemma InitialCursor(active: Option<Filter>, events: seq<Event>)
    requires RunEnabled(InitialPager(active), events)
    ensures Run(InitialPager(active), events).currentItems == ItemsPerPage * (1 + LoadMoreCount(events))
  {
    CursorCountsLoadMores(InitialPager(active), events);
  }

  /** A load-more click (one page more on the cursor, same filter) shows the
      next page of matching items, or all remaining ones; while the control is
      visible that is strictly more than before. (While it is hidden, nothing
      changes: see `SaturatedCursor`.) */
  lemma LoadMoreShowsMore(items: seq<Item>, filter: Filter, c: nat)
    // After the click, min(c + ItemsPerPage, #matching) items are shown.
    ensures CountTrue(FilterGallery(items, filter, c + ItemsPerPage).shown) <= c + ItemsPerPage
    ensures CountTrue(FilterGallery(items, filter, c + ItemsPerPage).shown) <= |MatchingItems(items, filter)|
    ensures CountTrue(FilterGallery(items, filter, c + ItemsPerPage).shown) == c + ItemsPerPage
         || CountTrue(FilterGallery(items, filter, c + ItemsPerPage).shown) == |MatchingItems(items, filter)|
    ensures FilterGallery(items, filter, c).loadMore ==> CountTrue(FilterGallery(items, filter, c + ItemsPerPage).shown) > CountTrue(FilterGallery(items, filter, c).shown)
  {
    ShownAreFirstPage(items, filter, c);
    ShownAreFirstPage(items, filter, c + ItemsPerPage);
  }

  /** Once the cursor covers every matching item, so that the load-more control
      is hidden, raising it changes nothing and the control stays hidden. */
  lemma SaturatedCursor(items: seq<Item>, filter: Filter, c1: nat, c2: nat)
    requires !FilterGallery(items, filter, c1).loadMore
    requires c1 <= c2
    ensures FilterGallery(items, filter, c2).shown == FilterGallery(items, filter, c1).shown
    ensures !FilterGallery(items, filter, c2).loadMore
  {
    var d1 := FilterGallery(items, filter, c1);
    var d2 := FilterGallery(items, filter, c2);
    forall k | 0 <= k < |items|
      ensures d1.shown[k] == d2.shown[k]
    {
      if Matches(filter, items[k]) {
        MatchingBeforeMatch(items, filter, k);
      }
    }
  }

  /** A prefix never has more matching items than the whole sequence. */
  lemma {:induction false} MatchingPrefixMonotone(items: seq<Item>, filter: Filter, n: nat)
    requires n <= |items|
    ensures |MatchingItems(items[..n], filter)| <= |MatchingItems(items, filter)|
    decreases |items|
  {
    if n < |items| {
      var init := items[..|items| - 1];
      assert items[..n] == init[..n];
      MatchingPrefixMonotone(init, filter, n);
    } else {
      assert items[..n] == items;
    }
  }

  /** A matching item has fewer matching items before it than there are in all. */
  lemma MatchingBeforeMatch(items: seq<Item>, filter: Filter, k: nat)
    requires k < |items| && Matches(filter, items[k])
    ensures |MatchingItems(items[..k], filter)| < |MatchingItems(items, filter)|
  {
    assert items[..k + 1][..k] == items[..k];
    assert |MatchingItems(items[..k + 1], filter)| == |MatchingItems(items[..k], filter)| + 1;
    MatchingPrefixMonotone(items, filter, k + 1);
  }

  function LoadMoreClicks(n: nat): (events: seq<Event>)
    ensures |events| == n
    ensures forall k :: 0 <= k < n ==> events[k] == LoadMoreClick
  {
    if n == 0 then [] else [LoadMoreClick] + LoadMoreClicks(n - 1)
  }

  /** `n` load-more clicks advance the cursor by `n` pages under the same filter. */
  lemma {:induction false} RepeatedLoadMore(p: Pager, n: nat)
    requires p.active.Some?
    ensures RunEnabled(p, LoadMoreClicks(n))
    ensures Run(p, LoadMoreClicks(n)) == Pager(p.currentItems + ItemsPerPage * n, p.active)
    decreases n
  {
    if n > 0 {
      var p' := Step(p, LoadMoreClick);
      RepeatedLoadMore(p', n - 1);
      assert LoadMoreClicks(n)[1..] == LoadMoreClicks(n - 1);
    }
  }

  /** Enough load-more clicks show every matching item, after which the control
      is hidden. (`RepeatedLoadMore` shows the clicks are always enabled here.) */
  lemma LoadMoreReachesEnd(items: seq<Item>, p: Pager, n: nat)
    requires p.active.Some?
    requires p.currentItems + ItemsPerPage * n >= |MatchingItems(items, p.active.value)|
    requires RunEnabled(p, LoadMoreClicks(n))
    ensures !Render(items, Run(p, LoadMoreClicks(n))).loadMore
    ensures Select(items, Render(items, Run(p, LoadMoreClicks(n))).shown) == MatchingItems(items, p.active.value)
  {
    RepeatedLoadMore(p, n);
    var q := Run(p, LoadMoreClicks(n));
    ShownAreFirstPage(items, p.active.value, q.currentItems);
  }
}
