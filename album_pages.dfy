/** The pure helpers of the `/myalbum` collection browser: how many pages a
    category has, which cards a page shows, which navigation buttons are
    enabled, where a navigation button leads, and which icon a category gets
    in the summary. */
module AlbumPages {

  /** Number of cards shown on one page. */
  const ItemsPerPage: nat := 5

  /** One card the user owns, as the per-category query returns it. */
  datatype Card = Card(id: int, name: string, category: string, amount: int)

  /** One embed field: the card's id, its name and the amount owned. */
  datatype Field = Field(cardId: int, name: string, amount: int)

  /** The structured content of a page embed: the category in the title,
      "page p of T" in the description and one field per card shown. */
  datatype PageView = PageView(category: string, page: int, totalPages: nat, fields: seq<Field>)

  /** The disabled flags of the four navigation buttons, in row order. */
  datatype NavRow = NavRow(firstDisabled: bool, previousDisabled: bool, nextDisabled: bool, lastDisabled: bool)

  /** A category and how many of its cards the user owns (zero included). */
  datatype CategoryCount = CategoryCount(category: string, count: int)

  /** One summary field: the category, its icon and the owned count. */
  datatype CategoryField = CategoryField(category: string, icon: string, count: int)

  function Min(a: int, b: int): int { if a <= b then a else b }

  function Max(a: int, b: int): int { if a <= b then b else a }

  /** The page count of a category with `count` cards: the ceiling of count / 5. */
  function TotalPages(count: nat): (pages: nat)
    ensures pages * ItemsPerPage >= count
    ensures pages > 0 ==> (pages - 1) * ItemsPerPage < count
    ensures pages == 0 <==> count == 0
  {
    (count + ItemsPerPage - 1) / ItemsPerPage
  }

  /** The index `Array.prototype.slice` resolves a bound to: a negative bound
      counts from the end, and the result is clamped to [0, length]. */
  function SliceBound(i: int, length: nat): (b: nat)
    ensures b <= length
  {
    if i < 0 then (if length + i < 0 then 0 else length + i)
    else if i <= length then i
    else length
  }

  /** `s.slice(start, end)` with the JavaScript semantics. */
  function Slice<T>(s: seq<T>, start: int, end: int): seq<T>
  {
    var lo, hi := SliceBound(start, |s|), SliceBound(end, |s|);
    if lo < hi then s[lo..hi] else []
  }

  /** The cards shown on `page`: the window of five cards starting at
      (page - 1) * 5, clipped to the list. Page 0, which an empty category
      can reach, shows nothing. */
  function PageWindow(cards: seq<Card>, page: int): (window: seq<Card>)
    ensures |window| <= ItemsPerPage
    ensures page >= 1 ==>
      window == cards[Min((page - 1) * ItemsPerPage, |cards|)..Min(page * ItemsPerPage, |cards|)]
    ensures page == 0 ==> window == []
    ensures 1 <= page <= TotalPages(|cards|) ==> |window| > 0
  {
    var startIndex := (page - 1) * ItemsPerPage;
    Slice(cards, startIndex, startIndex + ItemsPerPage)
  }

  function FieldOf(card: Card): Field
  {
    Field(card.id, card.name, card.amount)
  }

  /** The page embed: at most five fields, one per card of the page window,
      in the order of the list. */
  function CardEmbed(cards: seq<Card>, page: int, totalPages: nat, category: string): (view: PageView)
    ensures view.category == category && view.page == page && view.totalPages == totalPages
    ensures |view.fields| <= ItemsPerPage
    ensures page >= 1 ==> |view.fields| == Max(0, Min(ItemsPerPage, |cards| - (page - 1) * ItemsPerPage))
    ensures page >= 1 ==> forall k :: 0 <= k < |view.fields| ==>
      view.fields[k] == FieldOf(cards[(page - 1) * ItemsPerPage + k])
  {
    var displayed := PageWindow(cards, page);
    PageView(category, page, totalPages, seq(|displayed|, k requires 0 <= k < |displayed| => FieldOf(displayed[k])))
  }

  /** The navigation row: 'first' and 'previous' are disabled on page 1,
      'next' and 'last' on page `totalPages`, and all four when
      `disableButtons` is set. */
  function NavigationRow(page: int, totalPages: nat, disableButtons: bool): (row: NavRow)
    ensures disableButtons ==> row == NavRow(true, true, true, true)
  {
    NavRow(page == 1 || disableButtons, page == 1 || disableButtons,
           page == totalPages || disableButtons, page == totalPages || disableButtons)
  }

  /** The custom ids of the four navigation buttons. */
  const NavigationIds: set<string> := {"first", "previous", "next", "last"}

  /** The range the current page keeps. For a non-empty category it is
      [1, totalPages]; for an empty one (totalPages = 0) 'next' and 'last'
      lead to page 0, so the range is {0, 1}. */
  predicate PageInRange(page: int, totalPages: nat)
  {
    if totalPages == 0 then 0 <= page <= 1 else 1 <= page <= totalPages
  }

  /** The page a navigation button leads to from `page`. */
  function Navigate(page: int, customId: string, totalPages: nat): (newPage: int)
    ensures PageInRange(page, totalPages) ==> PageInRange(newPage, totalPages)
    ensures customId !in NavigationIds ==> newPage == page
    ensures customId == "first" ==> newPage == 1
    ensures customId == "previous" ==> (page > 1 ==> newPage == page - 1) && (page <= 1 ==> newPage == 1)
    ensures customId == "next" ==> (page < totalPages ==> newPage == page + 1) && (page >= totalPages ==> newPage == totalPages)
    ensures customId == "last" ==> newPage == totalPages
  {
    if customId == "first" then 1
    else if customId == "previous" then Max(1, page - 1)
    else if customId == "next" then Min(totalPages, page + 1)
    else if customId == "last" then totalPages
    else page
  }

  /** The page reached by pressing the buttons `ids` in order. */
  function NavigateAll(page: int, ids: seq<string>, totalPages: nat): int
    decreases |ids|
  {
    if ids == [] then page else NavigateAll(Navigate(page, ids[0], totalPages), ids[1..], totalPages)
  }

  /** However many buttons are pressed, the page never leaves its range. */
  lemma {:induction false} NavigationStaysInRange(page: int, ids: seq<string>, totalPages: nat)
    requires PageInRange(page, totalPages)
    ensures PageInRange(NavigateAll(page, ids, totalPages), totalPages)
    decreases |ids|
  {
    if ids != [] {
      NavigationStaysInRange(Navigate(page, ids[0], totalPages), ids[1..], totalPages);
    }
  }

  /** Within the page range, a button is enabled exactly when pressing it
      moves to another page. */
  lemma EnabledExactlyWhenItMoves(page: int, totalPages: nat)
    requires PageInRange(page, totalPages)
    ensures var row := NavigationRow(page, totalPages, false);
      && (!row.firstDisabled <==> Navigate(page, "first", totalPages) != page)
      && (!row.previousDisabled <==> Navigate(page, "previous", totalPages) != page)
      && (!row.nextDisabled <==> Navigate(page, "next", totalPages) != page)
      && (!row.lastDisabled <==> Navigate(page, "last", totalPages) != page)
  {
  }

  /** An empty category (reachable: the category list counts every catalog
      category, owned or not) shows page 1 of 0 with 'next' enabled, and
      'next' leads to page 0. */
  lemma EmptyCategoryReachesPageZero()
    ensures TotalPages(0) == 0
    ensures !NavigationRow(1, 0, false).nextDisabled
    ensures Navigate(1, "next", 0) == 0 && Navigate(1, "last", 0) == 0
    ensures Navigate(0, "previous", 0) == 1
  {
  }

  /** Three 'next' presses from page 1 of 3 stop at page 3. */
  lemma NextStopsAtLastPage()
    ensures NavigateAll(1, ["next", "next", "next"], 3) == 3
    ensures NavigateAll(1, ["previous"], 3) == 1
  {
  }

  /** The cards of pages 1 to `pages`, concatenated. */
  function PagesUpTo(cards: seq<Card>, pages: nat): seq<Card>
  {
    if pages == 0 then [] else PagesUpTo(cards, pages - 1) + PageWindow(cards, pages)
  }

  lemma {:induction false} PagesUpToIsPrefix(cards: seq<Card>, pages: nat)
    ensures PagesUpTo(cards, pages) == cards[..Min(pages * ItemsPerPage, |cards|)]
  {
    if pages > 0 {
      PagesUpToIsPrefix(cards, pages - 1);
      var lo := Min((pages - 1) * ItemsPerPage, |cards|);
      var hi := Min(pages * ItemsPerPage, |cards|);
      assert cards[..lo] + cards[lo..hi] == cards[..hi];
    }
  }

  /** Paging through a category shows every card exactly once, in order:
      pages 1 to totalPages concatenated give back the list. */
  lemma PagesPartitionCards(cards: seq<Card>)
    ensures PagesUpTo(cards, TotalPages(|cards|)) == cards
  {
    PagesUpToIsPrefix(cards, TotalPages(|cards|));
  }

  /** The emoji shown for the five known categories. */
  const CategoryIcons: map<string, string> := map[
    "Comun" := "<:pepposad:1253059533933117631>",
    "Especial" := "<:3_:1253060277402996788>",
    "Especial Jugador" := "<a:mexicano:1252717621397291071>",
    "Shiny" := "<:ping:1253059493005099199>",
    "Ex" := "<a:emoji_34:1253473698589970523>"
  ]

  /** The icon of a category, "Unknown" for a category without one. */
  function CategoryIcon(category: string): (icon: string)
    ensures category in CategoryIcons ==> icon == CategoryIcons[category]
    ensures icon == "Unknown" <==> category !in CategoryIcons
  {
    if category in CategoryIcons then CategoryIcons[category] else "Unknown"
  }

  /** The summary fields of the opening reply, one per category row. */
  function SummaryFields(counts: seq<CategoryCount>): (fields: seq<CategoryField>)
    ensures |fields| == |counts|
    ensures forall i :: 0 <= i < |counts| ==>
      fields[i] == CategoryField(counts[i].category, CategoryIcon(counts[i].category), counts[i].count)
  {
    seq(|counts|, i requires 0 <= i < |counts| =>
      CategoryField(counts[i].category, CategoryIcon(counts[i].category), counts[i].count))
  }

  /** The options of the category select menu: the category names, in order. */
  function CategoryOptions(counts: seq<CategoryCount>): (options: seq<string>)
    ensures |options| == |counts|
    ensures forall i :: 0 <= i < |counts| ==> options[i] == counts[i].category
  {
    seq(|counts|, i requires 0 <= i < |counts| => counts[i].category)
  }
}
