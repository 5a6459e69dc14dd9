/** The gallery page (`src/components/page-content/GalleryContent.tsx`): a
    generated catalogue of 50 items, a category filter and a page size that
    grows by 12 with each "Load More" click and falls back to 12 whenever
    the filter changes. */
module Gallery {
  import opened JsString
  import opened Frames

  const ItemCount: nat := 50
  const InitialCount: nat := 12
  const Increment: nat := 12

  datatype Category = Keychains | Patches | Custom

  /** `categoryCycle` */
  const CategoryCycle: seq<Category> := [Keychains, Patches, Custom]

  /** The name shown under an item and used by the filter buttons. */
  function CategoryName(c: Category): string {
    match c
    case Keychains => "keychains"
    case Patches => "patches"
    case Custom => "custom"
  }

  /** The position of a category in `categoryCycle`. */
  function CategoryIndex(c: Category): (k: nat)
    ensures k < |CategoryCycle| && CategoryCycle[k] == c
  {
    match c
    case Keychains => 0
    case Patches => 1
    case Custom => 2
  }

  /** `titleCycle` */
  const TitleCycle: seq<string> := [
    "Canvas Stretch Series",
    "Geometric Patterns",
    "Textured Landscapes",
    "Minimalist Forms",
    "Color Study",
    "Architectural Canvas",
    "Natural Elements",
    "Monochrome Series"
  ]

  datatype Item = Item(id: nat, title: string, category: Category, imageUrl: string)

  /** The title of item `i` (zero-based): its cycle name and round, trimmed. */
  function Title(i: nat): string {
    Trim(TitleCycle[i % |TitleCycle|] + " " + NatToString(i / |TitleCycle| + 1))
  }

  /** Every cycle name starts and ends with a letter. */
  lemma TitleCycleEnds(k: nat)
    requires k < |TitleCycle|
    ensures TitleCycle[k] != [] && !IsWhitespace(TitleCycle[k][0])
  {
  }

  /** The trim changes nothing: a title is its cycle name, a space and the
      round number, which starts at 1 and goes up every eight items. */
  lemma TitleIsNameAndRound(i: nat)
    ensures Title(i) == TitleCycle[i % |TitleCycle|] + " " + NatToString(i / |TitleCycle| + 1)
  {
    var name := TitleCycle[i % |TitleCycle|];
    var digits := NatToString(i / |TitleCycle| + 1);
    var s := name + " " + digits;
    TitleCycleEnds(i % |TitleCycle|);
    assert s[0] == name[0];
    assert s[|s| - 1] == digits[|digits| - 1];
    assert IsDigit(digits[|digits| - 1]);
    TrimUnchanged(s);
  }

  /** Item `i` (zero-based) of `galleryItems`. */
  function ItemAt(i: nat): Item {
    Item(i + 1, Title(i), CategoryCycle[i % |CategoryCycle|], FramePath(i + 1))
  }

  /** `galleryItems` */
  function Catalogue(): (items: seq<Item>)
    ensures |items| == ItemCount
    ensures forall i :: 0 <= i < ItemCount ==> items[i] == ItemAt(i)
  {
    seq(ItemCount, i requires 0 <= i => ItemAt(i))
  }

  /** Ids run from 1 to 50 in order, categories follow the cycle, and no two
      items share an image. */
  lemma CatalogueShape(i: nat, j: nat)
    requires i < ItemCount && j < ItemCount
    ensures Catalogue()[i].id == i + 1
    ensures Catalogue()[i].category == CategoryCycle[i % 3]
    ensures Catalogue()[i].imageUrl == Catalogue()[j].imageUrl ==> i == j
  {
    if Catalogue()[i].imageUrl == Catalogue()[j].imageUrl {
      FramePathInjective(i + 1, j + 1);
    }
  }

  /** `items.filter(i => i.category === c)` */
  function FilterBy(items: seq<Item>, c: Category): (r: seq<Item>)
    ensures |r| <= |items|
    ensures forall x :: x in r ==> x in items && x.category == c
  {
    if items == [] then []
    else
      var last := items[|items| - 1];
      FilterBy(items[..|items| - 1], c) + (if last.category == c then [last] else [])
  }

  /** The filter keeps every item of the category. */
  lemma {:induction false} FilterByComplete(items: seq<Item>, c: Category, x: Item)
    requires x in items && x.category == c
    ensures x in FilterBy(items, c)
  {
    var n := |items|;
    if x != items[n - 1] {
      assert x in items[..n - 1] by {
        var k :| 0 <= k < n && items[k] == x;
        assert k < n - 1;
        assert items[..n - 1][k] == x;
      }
      FilterByComplete(items[..n - 1], c, x);
    }
  }

  /** Ids strictly increase along a sequence of items. */
  predicate IdsIncrease(items: seq<Item>) {
    forall a, b :: 0 <= a < b < |items| ==> items[a].id < items[b].id
  }

  /** The filter keeps the catalogue order. */
  lemma {:induction false} FilterByKeepsOrder(items: seq<Item>, c: Category)
    requires IdsIncrease(items)
    ensures IdsIncrease(FilterBy(items, c))
  {
    var n := |items|;
    if n > 0 {
      var init, last := items[..n - 1], items[n - 1];
      IncreasingPrefix(items);
      FilterByKeepsOrder(init, c);
      if last.category == c {
        var r := FilterBy(init, c);
        forall a | 0 <= a < |r|
          ensures r[a].id < last.id
        {
          BelowLast(items, r[a]);
        }
        IncreasingAppend(r, last);
      }
    }
  }

  /** Dropping the last item keeps the order. */
  lemma IncreasingPrefix(items: seq<Item>)
    requires IdsIncrease(items) && items != []
    ensures IdsIncrease(items[..|items| - 1])
  {
    var init := items[..|items| - 1];
    forall a, b | 0 <= a < b < |init|
      ensures init[a].id < init[b].id
    {
      assert init[a] == items[a] && init[b] == items[b];
    }
  }

  /** Every item before the last has a smaller id. */
  lemma BelowLast(items: seq<Item>, x: Item)
    requires IdsIncrease(items) && items != [] && x in items[..|items| - 1]
    ensures x.id < items[|items| - 1].id
  {
    var init := items[..|items| - 1];
    var k :| 0 <= k < |init| && init[k] == x;
    assert items[k] == x;
  }

  /** An item above all others extends the order. */
  lemma IncreasingAppend(r: seq<Item>, x: Item)
    requires IdsIncrease(r)
    requires forall a :: 0 <= a < |r| ==> r[a].id < x.id
    ensures IdsIncrease(r + [x])
  {
    var s := r + [x];
    forall a, b | 0 <= a < b < |s|
      ensures s[a].id < s[b].id
    {
      assert s[a] == r[a];
      if b < |r| {
        assert s[b] == r[b];
      }
    }
  }

  /** Categories follow `categoryCycle` along the sequence. */
  predicate CategoriesCycle(items: seq<Item>) {
    forall i :: 0 <= i < |items| ==> items[i].category == CategoryCycle[i % |CategoryCycle|]
  }

  /** `galleryItems` starts at id 1, counts up, and cycles its categories. */
  lemma CatalogueOrder()
    ensures CategoriesCycle(Catalogue()) && IdsIncrease(Catalogue())
  {
  }

  /** A sequence that cycles its categories holds `(n + 2 - k) / 3` items of
      the category at position `k` of the cycle among its `n` items. */
  lemma {:induction false} FilterCount(items: seq<Item>, c: Category)
    requires CategoriesCycle(items)
    ensures |FilterBy(items, c)| == (|items| + 2 - CategoryIndex(c)) / 3
  {
    var n := |items|;
    if n > 0 {
      var init := items[..n - 1];
      assert CategoriesCycle(init) by {
        forall i | 0 <= i < |init|
          ensures init[i].category == CategoryCycle[i % |CategoryCycle|]
        {
          assert init[i] == items[i];
        }
      }
      FilterCount(init, c);
      assert init == items[..n - 1];
      CycleMatch((n - 1) % 3, c);
      CountStep(n - 1, CategoryIndex(c));
    }
  }

  /** A position of the cycle holds a category exactly at its index. */
  lemma CycleMatch(k: nat, c: Category)
    requires k < |CategoryCycle|
    ensures CategoryCycle[k] == c <==> k == CategoryIndex(c)
  {
  }

  /** One more item adds one to the count exactly at the category's turn. */
  lemma CountStep(m: nat, k: nat)
    requires k < 3
    ensures (m + 3 - k) / 3 == (m + 2 - k) / 3 + (if m % 3 == k then 1 else 0)
  {
    var q, r := m / 3, m % 3;
    assert m == 3 * q + r;
  }

  /** The filter of the page: `'all'` or one category. */
  datatype Filter = All | Only(category: Category)

  /** `filtered`, over the catalogue `items`. */
  function Filtered(items: seq<Item>, f: Filter): seq<Item> {
    match f
    case All => items
    case Only(c) => FilterBy(items, c)
  }

  /** Of the 50 generated items, keychains and patches have 17 each and
      custom designs 16. */
  lemma FilteredSizes(items: seq<Item>)
    requires |items| == ItemCount && CategoriesCycle(items)
    ensures |Filtered(items, All)| == 50
    ensures |Filtered(items, Only(Keychains))| == 17
    ensures |Filtered(items, Only(Patches))| == 17
    ensures |Filtered(items, Only(Custom))| == 16
  {
    FilterCount(items, Keychains);
    FilterCount(items, Patches);
    FilterCount(items, Custom);
  }

  /** A filtered view holds exactly the items of that category. */
  lemma FilteredIsCategory(items: seq<Item>, c: Category, x: Item)
    ensures x in Filtered(items, Only(c)) <==> x in items && x.category == c
  {
    if x in items && x.category == c {
      FilterByComplete(items, c, x);
    }
  }

  /** A filtered view keeps the catalogue order. */
  lemma FilteredKeepsOrder(items: seq<Item>, f: Filter)
    requires IdsIncrease(items)
    ensures IdsIncrease(Filtered(items, f))
  {
    if f.Only? {
      FilterByKeepsOrder(items, f.category);
    }
  }

  /** `filtered.slice(0, visibleCount)` */
  function Displayed(items: seq<Item>, f: Filter, visibleCount: nat): seq<Item> {
    var shown := Filtered(items, f);
    shown[..if visibleCount < |shown| then visibleCount else |shown|]
  }

  /** `displayed.length < filtered.length` */
  predicate HasMore(items: seq<Item>, f: Filter, visibleCount: nat) {
    |Displayed(items, f, visibleCount)| < |Filtered(items, f)|
  }

  /** The page shows the first `visibleCount` items of the filter, all of
      them when there are fewer, and offers more exactly when some are
      hidden. */
  lemma DisplayedIsPrefix(items: seq<Item>, f: Filter, visibleCount: nat)
    ensures var d := Displayed(items, f, visibleCount);
      && |d| <= visibleCount && d <= Filtered(items, f)
      && (visibleCount <= |Filtered(items, f)| ==> |d| == visibleCount)
      && (HasMore(items, f, visibleCount) <==> visibleCount < |Filtered(items, f)|)
  {
  }

  /** All 50 items fit after four clicks (12, 24, 36, 48, 60); one category
      after one click (12, 24). */
  lemma ClicksToShowAll(items: seq<Item>, c: Category)
    requires |items| == ItemCount && CategoriesCycle(items)
    ensures HasMore(items, All, InitialCount + 3 * Increment)
    ensures !HasMore(items, All, InitialCount + 4 * Increment)
    ensures HasMore(items, Only(c), InitialCount)
    ensures !HasMore(items, Only(c), InitialCount + Increment)
  {
    FilteredSizes(items);
  }

  /** The two pieces of page state the view depends on, over the
      catalogue. */
  class GalleryState {
    /** `galleryItems`, computed once for the module. */
    const items: seq<Item>
    var activeFilter: Filter
    var visibleCount: nat

    /** Whole pages only, and never a page beyond the last item. */
    ghost predicate Valid()
      reads this`activeFilter, this`visibleCount
    {
      && visibleCount >= InitialCount && visibleCount % Increment == 0
      && (visibleCount == InitialCount || visibleCount < |Filtered(items, activeFilter)| + Increment)
    }

    /** `useState('all')` and `useState(INITIAL_COUNT)`. */
    constructor ()
      ensures Valid() && items == Catalogue()
      ensures activeFilter == All && visibleCount == InitialCount
    {
      items := Catalogue();
      activeFilter := All;
      visibleCount := InitialCount;
    }

    /** A filter button, followed by the reset effect, which runs only when
        the filter actually changed. */
    method ClickFilter(f: Filter)
      requires Valid()
      modifies this`activeFilter, this`visibleCount
      ensures Valid() && activeFilter == f
      ensures visibleCount == if f == old(activeFilter) then old(visibleCount) else InitialCount
    {
      var changed := f != activeFilter;
      activeFilter := f;
      if changed {
        visibleCount := InitialCount;
      }
    }

    /** "Load More", which is offered only while items are hidden: the page
        grows by 12 and shows at least one more item, keeping those it
        showed. */
    method LoadMore()
      requires Valid() && HasMore(items, activeFilter, visibleCount)
      modifies this`visibleCount
      ensures Valid()
      ensures visibleCount == old(visibleCount) + Increment
      ensures old(Displayed(items, activeFilter, visibleCount)) < Displayed(items, activeFilter, visibleCount)
    {
      DisplayedIsPrefix(items, activeFilter, visibleCount);
      visibleCount := visibleCount + Increment;
      DisplayedIsPrefix(items, activeFilter, visibleCount);
    }
  }

  /** Changing the filter and coming back starts again at 12. */
  method FilterRoundTrip(g: GalleryState, c: Category) returns (count: nat)
    requires g.Valid() && g.activeFilter == All
    modifies g`activeFilter, g`visibleCount
    ensures count == InitialCount && g.activeFilter == All
  {
    g.ClickFilter(Only(c));
    g.ClickFilter(All);
    count := g.visibleCount;
  }

  /** On 50 items that cycle their categories, as the catalogue does (see
      `CatalogueOrder`), four "Load More" clicks reach 60 and the button
      goes away with every item shown. */
  method ShowEverything(g: GalleryState) returns (shown: seq<Item>, more: bool)
    requires g.Valid() && |g.items| == ItemCount && CategoriesCycle(g.items)
    requires g.activeFilter == All && g.visibleCount == InitialCount
    modifies g`visibleCount
    ensures shown == g.items && !more
  {
    ClicksToShowAll(g.items, Keychains);
    DisplayedIsPrefix(g.items, All, InitialCount);
    DisplayedIsPrefix(g.items, All, InitialCount + Increment);
    DisplayedIsPrefix(g.items, All, InitialCount + 2 * Increment);
    g.LoadMore();
    g.LoadMore();
    g.LoadMore();
    g.LoadMore();
    shown := Displayed(g.items, g.activeFilter, g.visibleCount);
    assert shown == g.items[..|g.items|];
    more := HasMore(g.items, g.activeFilter, g.visibleCount);
  }
}
