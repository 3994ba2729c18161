# Album commands of a collectible-card chat bot, modelled in Dafny

The bot has three album commands:

- `/generar` draws a card. Each card has a percentage and the draw picks by cumulative percentage. A user may draw once every six hours. The user's owned amount of the drawn card is recorded, capped at 2.
- `/mostrar` shows one owned card at a time. Its 'Previous' and 'Next' buttons wrap around. The index shown travels in the buttons' custom ids (`prev:<i>`, `next:<i>`).
- `/myalbum` opens a summary of the collection by category, with a category select menu. Choosing a category shows its cards five per page, with 'first', 'previous', 'next' and 'last' buttons. One menu per user is kept in a process-wide registry. It expires after a period of inactivity: its components are stripped and its entry is removed.

The model has one module per concern:

| file | module | models |
|---|---|---|
| `album_pages.dfy` | `AlbumPages` | the pure pagination helpers of `/myalbum`: page count, page window, embed fields, button enablement, navigation, category icons |
| `album_menus.dfy` | `AlbumMenus` | the menu registry as a class (`MenuRegistry`) whose methods are the four events: open, select a category, press a button, timer fires |
| `js_text.dfy` | `JsText` | decimal rendering, `split` on one character and `parseInt`, as JavaScript defines them |
| `album_carousel.dfy` | `AlbumCarousel` | `/mostrar`: query building, index stepping, custom-id encoding and parsing, the reply |
| `album_draw.dfy` | `AlbumDraw` | `/generar`: the weighted pick, the cooldown, and the `users` / `userCards` tables as a class (`CardStore`) |
| `wrappers.dfy` | `Wrappers` | `Option`, for `undefined`, `null` and `NaN` |

## How the model stands for the runtime

- A timer is a token. Arming one takes a fresh token and records, in `pending`, the user and message its callback will act on. `clearTimeout` removes the token. A timer fires only through `MenuRegistry.Expire` with a pending token.
- Whether an edit that strips a message's components succeeds is a parameter. Query results, the clock (in integer milliseconds) and the random roll are parameters too.
- Each handler runs as one atomic step.

Where the code does something a cleaner design would not, the model follows the code:

- Choosing a category registers a fresh entry even when the user has none. There is no expiry check on that path.
- An empty category has 0 pages. Its page 1 shows 'next' and 'last' enabled, and pressing either leads to page 0. The page range the code keeps is therefore `{0, 1}` for an empty category and `[1, totalPages]` otherwise (`AlbumPages.PageInRange`).
- `/myalbum` by a user who owns no cards cancels the old menu's timer. It strips that menu's message but leaves its entry registered, now without a timer.
- When the strip edit fails, the timer's callback does not delete the entry. The entry stays registered without a timer until the user's next category choice replaces it or the next button press re-arms a timer on it.
- Opening is check-then-act with no atomic insert-or-replace. Custom ids carry no correlation token.

The registry invariant (`AlbumMenus.TimersOwned`) says that every pending timer is held by the current entry of its user, on that entry's message. All four events preserve it. It follows that no user ever has two pending timers, and a timer that fires always removes the entry that armed it, never a newer one.

## Model

| member | source | states |
|---|---|---|
| `AlbumPages.TotalPages` | src/commands/albumViewALL.js:238 | the page count is the least number of 5-card pages that holds all cards; it is 0 exactly for an empty category |
| `AlbumPages.PageWindow` | src/commands/albumViewALL.js:83-85 | page p ≥ 1 shows `cards[(p-1)*5 .. p*5]` clipped to the list, at most 5 cards; page 0 shows none; every page in [1, totalPages] shows at least one card |
| `AlbumPages.CardEmbed` | src/commands/albumViewALL.js:82-102 | the embed carries the category, the page and the page count, and one field per card of the page window, in list order, at most 5 |
| `AlbumPages.PagesPartitionCards` | src/commands/albumViewALL.js:83-85 | pages 1 to totalPages, concatenated, are exactly the category's card list: every card is shown once, in order |
| `AlbumPages.PagesUpToIsPrefix` | src/commands/albumViewALL.js:83-85 | pages 1 to k, concatenated, are the first min(5k, n) cards |
| `AlbumPages.NavigationRow` | src/commands/albumViewALL.js:104-129 | with `disableButtons` every button is disabled |
| `AlbumPages.EnabledExactlyWhenItMoves` | src/commands/albumViewALL.js:111-126 | within the page range, each of 'first', 'previous', 'next', 'last' is enabled exactly when pressing it changes the page |
| `AlbumPages.Navigate` | src/commands/albumViewALL.js:289-304 | 'first' gives 1; 'previous' gives p - 1 above page 1 and 1 otherwise; 'next' gives p + 1 below the last page and totalPages otherwise; 'last' gives totalPages; a page in range stays in range; any other custom id leaves the page unchanged |
| `AlbumPages.NavigationStaysInRange` | src/commands/albumViewALL.js:289-304 | after any sequence of button presses the page is still within its range |
| `AlbumPages.NextStopsAtLastPage` | src/commands/albumViewALL.js:295-300 | with 3 pages, three 'next' presses from page 1 stop at page 3, and 'previous' on page 1 stays on page 1 |
| `AlbumPages.EmptyCategoryReachesPageZero` | src/commands/albumViewALL.js:298-302 | an empty category has 0 pages; on page 1 'next' is enabled, and 'next' and 'last' lead to page 0; 'previous' from page 0 leads back to 1 |
| `AlbumPages.CategoryIcon` | src/commands/albumViewALL.js:186-187 | a known category gets its icon; the result is "Unknown" exactly when the category has no icon |
| `AlbumPages.SummaryFields` | src/commands/albumViewALL.js:186-193 | the summary has one field per category row, in order, each with the category's icon and owned count |
| `AlbumPages.CategoryOptions` | src/commands/albumViewALL.js:195-203 | the select menu offers the category names, one per row, in order |
| `AlbumMenus.OneTimerPerUser` | src/commands/albumViewALL.js:256-272 | under the registry invariant, two pending timers of one user are the same timer |
| `AlbumMenus.CancelLeavesNoTimer` | src/commands/albumViewALL.js:146-148 | cancelling the timer of a user's entry leaves that user with no pending timer and keeps the invariant |
| `AlbumMenus.MenuRegistry.constructor` | src/commands/albumViewALL.js:17 | the registry starts empty, with no pending timer, and satisfies its invariant |
| `AlbumMenus.MenuRegistry.Open` | src/commands/albumViewALL.js:144-221 | the old timer is cancelled and the old message stripped if the edit succeeds; no cards gives the notice, and a render failure the error reply, both keeping the old entry without a timer; otherwise an entry without cards replaces the old one, with a fresh timer on the reply |
| `AlbumMenus.MenuRegistry.SelectCategory` | src/commands/albumViewALL.js:232-273 | the user's entry, present or not, becomes page 1 of the chosen category's cards with a fresh timer; the reply is page 1 of ceil(n/5) with its navigation row |
| `AlbumMenus.MenuRegistry.PressButton` | src/commands/albumViewALL.js:280-336 | no entry gives the expiry notice and changes nothing; an entry without cards fails and changes nothing; otherwise only that entry's page and timer change, to the navigated page and a fresh timer |
| `AlbumMenus.MenuRegistry.Expire` | src/commands/albumViewALL.js:210-217 | a cancelled timer does nothing; a pending one stops being pending and, only if the edit succeeds, strips its message and deletes its user's entry, which is the entry holding that timer (same callback at lines 262-269 and 328-335) |
| `AlbumMenus.OpenTwice` | src/commands/albumViewALL.js:146-154 | opening twice leaves one entry, on the second reply, one pending timer, and the first reply stripped |
| `AlbumMenus.SevenCardCategory` | src/commands/albumViewALL.js:238-307 | 7 cards: page 1 of 2 shows cards 1-5 with only 'next'/'last' enabled; 'next' shows cards 6-7 on page 2 with only 'first'/'previous' enabled |
| `AlbumMenus.ButtonAfterExpiry` | src/commands/albumViewALL.js:281-285 | after the timer has fired with a successful edit, a button gets the expiry notice and no entry is brought back |
| `AlbumMenus.ButtonBeforeCategory` | src/commands/albumViewALL.js:287-288 | a button on a menu opened by the command, before any category is chosen, fails |
| `JsText.DecimalString` | src/commands/albumView.js:77 | an index renders as a non-empty string of decimal digits with no leading zero |
| `JsText.Split` | src/commands/albumView.js:49 | `split(':')` yields at least one piece and no piece contains the separator |
| `JsText.JoinSplit` | src/commands/albumView.js:49 | joining the pieces of `split` with the separator gives back the string |
| `JsText.SplitAfterPrefix` | src/commands/albumView.js:49 | a separator-free text followed by the separator comes out as the first piece |
| `JsText.ParseInt` | src/commands/albumView.js:50 | `parseInt` gives NaN unless the text holds a decimal digit; a number is at most 0 when a '-' sign follows the leading white space, and at least 0 otherwise |
| `JsText.ParseIntDecimal` | src/commands/albumView.js:50 | `parseInt` reads back the decimal rendering of every non-negative integer |
| `AlbumCarousel.BuildAlbumQuery` | src/commands/albumView.js:4-19 | params are `[user]`, or `[user, id]` with the id filter appended when an id is given; the query has exactly one placeholder per parameter |
| `AlbumCarousel.Fetched` | src/commands/albumView.js:44-51 | a slash command with an id fetches just the owned cards with that id; without an id, and on a button, the whole collection |
| `AlbumCarousel.Step` | src/commands/albumView.js:53-57 | 'prev' and 'next' keep an index in [0, n) within [0, n); any other action keeps the index; over no cards, or from NaN, the result is NaN |
| `AlbumCarousel.StepsAreInverse` | src/commands/albumView.js:53-57 | 'next' moves to the following index wrapping to 0, 'prev' to the previous wrapping to n-1, and each undoes the other |
| `AlbumCarousel.CustomId` | src/commands/albumView.js:76-83 | a button's custom id is its action, a colon, then the index's decimal digits with no leading zero |
| `AlbumCarousel.ParseCustomId` | src/commands/albumView.js:49-50 | the action is the text before the first colon; without a colon the index is NaN; when the text after the first colon holds no other colon, the index is `parseInt` of that text |
| `AlbumCarousel.CustomIdRoundTrip` | src/commands/albumView.js:49-50 | a custom id `action:index` (action without a colon) parses back to that action and index |
| `AlbumCarousel.Render` | src/commands/albumView.js:60-93 | no rows gives only the notice; an index that is NaN or names no row gives the error reply, because the embed of an undefined row throws; otherwise the row at the index, with both buttons exactly when there is more than one row |
| `AlbumCarousel.Respond` | src/commands/albumView.js:39-93 | no rows gives only the notice; a shown card is the row at its index; buttons appear exactly when there is more than one row and carry that index; the slash command shows row 0 as a new reply, a button updates in place |
| `AlbumCarousel.NextThenPrevious` | src/commands/albumView.js:49-87 | pressing 'Next' on a shown card shows the following one, and pressing 'Previous' on that gives back the first reply |
| `AlbumDraw.PickAlbum` | src/commands/albumGenerate.js:14-27 | the pick is the first card whose running percentage reaches the roll; it is null exactly when no running percentage does |
| `AlbumDraw.CumulativeMonotonic` | src/commands/albumGenerate.js:19 | with non-negative percentages the running sum never decreases |
| `AlbumDraw.PickFailsExactlyBeyondTotal` | src/commands/albumGenerate.js:14-27 | with non-negative percentages the pick is null exactly when the catalog is empty or the roll exceeds the total |
| `AlbumDraw.SliceHoldingRollIsPicked` | src/commands/albumGenerate.js:18-23 | with non-negative percentages, the card whose slice of the running total, (sum before it, sum through it], holds the roll is the first to reach the roll, and so the one picked |
| `AlbumDraw.FullCatalogAlwaysPicks` | src/commands/albumGenerate.js:14-26 | when the percentages total 100 or more, every roll in [0, 100) picks a card |
| `AlbumDraw.RemainingMinutes` | src/commands/albumGenerate.js:40-49 | the wait is positive exactly when less than 6 hours have passed, and is then the ceiling of the remaining time in minutes, at most 360 |
| `AlbumDraw.CooldownOf` | src/commands/albumGenerate.js:38-50 | no recorded time means no wait; otherwise the wait is positive exactly when less than 6 hours have passed |
| `AlbumDraw.NextAmount` | src/commands/albumGenerate.js:99-110 | a first draw stores 1; a repeat of a stored amount of 1 or more stores 2; never more than 2 |
| `AlbumDraw.AmountIsCappedAtTwo` | src/commands/albumGenerate.js:99-110 | after k ≥ 1 draws of one card the amount is 1 when k = 1 and 2 after that |
| `AlbumDraw.CardStore.CheckUserAndCooldown` | src/commands/albumGenerate.js:29-51 | an unknown user is inserted with the current time and reported new with no wait; a known user is reported with the wait left by the recorded time, and no table changes |
| `AlbumDraw.CardStore.Generate` | src/commands/albumGenerate.js:65-110 | a waiting known user gets only the wait notice and no table changes; otherwise the draw time is set before the pick, a null pick adds no card, and a pick sets that card's amount to 1 or min(amount + 1, 2); amounts stay in {1, 2} |
| `AlbumDraw.EmptyCatalogStillStartsCooldown` | src/commands/albumGenerate.js:79-89 | a draw that picks nothing still starts a 360-minute wait |
| `AlbumDraw.NewUserDrawsThenWaits` | src/commands/albumGenerate.js:32-35 | a new user draws at once with amount 1, and a minute later must wait 359 minutes, because insertion stores the current time |

## Left out

- `src/index.js` is not part of this model. It loads the commands, wires gateway events and routes a button back to the command whose name the message records.
- Rendering through the chat library is left out: embed colours, thumbnails, avatar URL and format, the guild nickname, the user name in titles, and the select-menu options rebuilt on every page update. Only the structured content is modelled.
- The completion percentage of the `/myalbum` summary (albumViewALL.js:173-182) is left out. It is a floating-point sum formatted with `toFixed(2)`.
- Queries are not executed. Their results are parameters. A query whose `catch` returns `[]` is covered by passing `[]`.
- Interleaving at `await` points is left out, and each handler is one atomic step. In particular the button handler may re-arm a timer on an entry object that a concurrent select has already replaced.
- Real time is left out, including the 60 000 ms inactivity delay. Tokens impose no order: `MenuRegistry.Expire` accepts any pending token at any moment, even right after it was armed. This stays sound because no user ever has two pending timers (`AlbumMenus.OneTimerPerUser`).
- MenuRegistry.SelectCategory: the `catch` path (the message update fails, the error reply is sent, nothing is stored) is not modelled.
- MenuRegistry.PressButton: a failure of the message update, which would propagate out of the handler before the entry is touched, is not modelled.
- CardStore.Generate: the generic `catch` path for database failures is not modelled.
- Percentages are exact reals. A `parseFloat` that yields `NaN` is left out, and the roll `Math.random() * 100` is a parameter.
- RemainingMinutes: the wait uses exact rational arithmetic. The source's floating-point hours could, near a minute boundary, round the ceiling differently.
- JsText.ParseInt: integers are unbounded. The loss of precision above 2^53 is not modelled.
- Fetched: the carousel query has no `ORDER BY`. The model assumes the store returns the user's cards in the same order on every query, so a button's index names the same card.
- CategoryIcon: JavaScript object lookup also finds inherited keys such as `constructor`. The model treats only the five own keys as known.
- CardStore: the unique key of `userCards` is not visible in the source. It is modelled as (numeric user id, card id). The `user_id` column, looked up by user name, is left out.
- BuildAlbumQuery: the SQL text is a sequence of literal fragments and placeholders, so that placeholders can be counted.
