/** The per-user registry of open `/myalbum` menus and the four events that
    act on it: opening the command, choosing a category, pressing a
    navigation button, and the expiry timer firing.

    Timers are modelled by tokens: arming a timer takes the next fresh token
    and records, in `pending`, the user and message its callback will act on;
    cancelling a timer removes its token from `pending`; a timer fires only
    through `Expire` with a pending token. Each handler runs as one atomic
    step, and the outcome of stripping a message's components (which may
    fail) is a parameter. */
module AlbumMenus {
  import opened Wrappers
  import opened AlbumPages

  type UserId = string
  type MessageId = nat
  type TimerId = nat

  /** What the category select leaves in an entry: the cards of the chosen
      category, its name and the page shown. */
  datatype Browse = Browse(cards: seq<Card>, category: string, currentPage: int)

  /** An entry of the registry. The entry the opening command stores has no
      `Browse` part (cards, category and current page are undefined). */
  datatype Entry = Entry(message: MessageId, timeout: TimerId, browse: Option<Browse>)

  /** What an armed timer's callback will act on. */
  datatype Timer = Timer(user: UserId, message: MessageId)

  /** The reply to the opening command. */
  datatype OpenReply =
    | NoCardsNotice
    | Summary(fields: seq<CategoryField>, options: seq<string>)
    | OpenFailed

  /** The reply to a navigation button. */
  datatype ButtonReply =
    | ExpiredNotice
    | Updated(view: PageView, nav: NavRow)
    | ButtonFailed

  /** The updated message after a category is chosen. */
  datatype SelectReply = SelectReply(view: PageView, nav: NavRow)

  /** Every pending timer was armed before `nextTimer`, and belongs to the
      entry that currently holds its token, on that entry's message. So no
      user has two pending timers, and a timer that fires always retires the
      entry that armed it, never a newer one. */
  ghost predicate TimersOwned(menus: map<UserId, Entry>, pending: map<TimerId, Timer>, nextTimer: nat)
  {
    && (forall t :: t in pending ==> t < nextTimer)
    && (forall t :: t in pending ==>
          && pending[t].user in menus
          && menus[pending[t].user].timeout == t
          && menus[pending[t].user].message == pending[t].message)
  }

  /** Every browsing entry shows a page within its category's range. */
  ghost predicate PagesInRange(menus: map<UserId, Entry>)
  {
    forall u :: u in menus && menus[u].browse.Some? ==>
      PageInRange(menus[u].browse.value.currentPage, TotalPages(|menus[u].browse.value.cards|))
  }

  /** `pending` after `clearTimeout` on the timer of the user's entry, if any. */
  function CancelTimerOf(menus: map<UserId, Entry>, pending: map<TimerId, Timer>, user: UserId): map<TimerId, Timer>
  {
    if user in menus then pending - {menus[user].timeout} else pending
  }

  /** Under the registry invariant no user has two pending timers. */
  lemma OneTimerPerUser(menus: map<UserId, Entry>, pending: map<TimerId, Timer>, nextTimer: nat, t1: TimerId, t2: TimerId)
    requires TimersOwned(menus, pending, nextTimer)
    requires t1 in pending && t2 in pending && pending[t1].user == pending[t2].user
    ensures t1 == t2
  {
  }

  /** Cancelling a user's timer leaves that user with no pending timer. */
  lemma {:induction false} CancelLeavesNoTimer(menus: map<UserId, Entry>, pending: map<TimerId, Timer>, nextTimer: nat, user: UserId)
    requires TimersOwned(menus, pending, nextTimer)
    ensures forall t :: t in CancelTimerOf(menus, pending, user) ==> CancelTimerOf(menus, pending, user)[t].user != user
    ensures TimersOwned(menus, CancelTimerOf(menus, pending, user), nextTimer)
  {
    var p := CancelTimerOf(menus, pending, user);
    forall t | t in p ensures p[t].user != user {
      assert t in pending && pending[t] == p[t];
    }
  }

  class MenuRegistry {
    /** The open menus, by user. */
    var menus: map<UserId, Entry>
    /** The armed, not yet cancelled or fired, timers. */
    var pending: map<TimerId, Timer>
    /** The token the next armed timer gets. */
    var nextTimer: nat
    /** The messages whose components have been stripped. */
    var stripped: set<MessageId>

    ghost predicate Valid()
      reads this
    {
      TimersOwned(menus, pending, nextTimer) && PagesInRange(menus)
    }

    constructor ()
      ensures Valid()
      ensures menus == map[] && pending == map[] && stripped == {}
    {
      menus, pending, nextTimer, stripped := map[], map[], 0, {};
    }

    /** The `/myalbum` command. The previous menu's timer is cancelled and its
        components stripped (`editSucceeds` says whether that edit works).
        A user with no cards gets the "no cards" notice and the old entry
        stays registered, now without a timer. `renderFails` stands for an
        exception while building the summary (member fetch, reply): the error
        reply is sent and nothing is registered. Otherwise the summary is
        sent as message `reply` and an entry without cards is registered with
        a fresh timer, replacing any previous one. */
    method Open(user: UserId, owned: seq<Card>, categories: seq<CategoryCount>,
                editSucceeds: bool, renderFails: bool, reply: MessageId) returns (r: OpenReply)
      requires Valid()
      modifies this
      ensures Valid()
      ensures stripped == if user in old(menus) && editSucceeds then old(stripped) + {old(menus)[user].message} else old(stripped)
      ensures r.NoCardsNotice? <==> |owned| == 0
      ensures r.OpenFailed? <==> |owned| > 0 && renderFails
      ensures r.Summary? ==> r.fields == SummaryFields(categories) && r.options == CategoryOptions(categories)
      ensures !r.Summary? ==>
        && menus == old(menus)
        && pending == CancelTimerOf(old(menus), old(pending), user)
        && nextTimer == old(nextTimer)
      ensures r.Summary? ==>
        && menus == old(menus)[user := Entry(reply, old(nextTimer), None)]
        && pending == CancelTimerOf(old(menus), old(pending), user)[old(nextTimer) := Timer(user, reply)]
        && nextTimer == old(nextTimer) + 1
    {
      CancelLeavesNoTimer(menus, pending, nextTimer, user);
      if user in menus {
        var previous := menus[user];
        pending := pending - {previous.timeout};
        if editSucceeds {
          stripped := stripped + {previous.message};
        }
      }
      if |owned| == 0 {
        return NoCardsNotice;
      }
      if renderFails {
        return OpenFailed;
      }
      var t := nextTimer;
      nextTimer := nextTimer + 1;
      pending := pending[t := Timer(user, reply)];
      menus := menus[user := Entry(reply, t, None)];
      r := Summary(SummaryFields(categories), CategoryOptions(categories));
    }

    /** A category chosen in the select menu; `cards` are the user's cards of
        that category, by ascending id, and `message` the updated message.
        The entry is replaced, whatever it held and whether or not it
        existed, by one on page 1 of the new category, and its timer is
        re-armed. */
    method SelectCategory(user: UserId, category: string, cards: seq<Card>, message: MessageId) returns (r: SelectReply)
      requires Valid()
      modifies this
      ensures Valid()
      ensures r.view == CardEmbed(cards, 1, TotalPages(|cards|), category)
      ensures r.nav == NavigationRow(1, TotalPages(|cards|), false)
      ensures menus == old(menus)[user := Entry(message, old(nextTimer), Some(Browse(cards, category, 1)))]
      ensures pending == CancelTimerOf(old(menus), old(pending), user)[old(nextTimer) := Timer(user, message)]
      ensures nextTimer == old(nextTimer) + 1
      ensures stripped == old(stripped)
    {
      var totalPages := TotalPages(|cards|);
      r := SelectReply(CardEmbed(cards, 1, totalPages, category), NavigationRow(1, totalPages, false));
      CancelLeavesNoTimer(menus, pending, nextTimer, user);
      if user in menus {
        pending := pending - {menus[user].timeout};
      }
      var t := nextTimer;
      nextTimer := nextTimer + 1;
      pending := pending[t := Timer(user, message)];
      menus := menus[user := Entry(message, t, Some(Browse(cards, category, 1)))];
    }

    /** A navigation button. Without an entry the user gets the expiry
        notice; on an entry without cards (one the command opened and no
        category has been chosen on) reading the cards fails; otherwise the
        new page is shown and stored and the timer re-armed. Nothing else in
        the registry changes. */
    method PressButton(user: UserId, customId: string) returns (r: ButtonReply)
      requires Valid()
      modifies this
      ensures Valid()
      ensures stripped == old(stripped)
      ensures r.ExpiredNotice? <==> user !in old(menus)
      ensures r.ButtonFailed? <==> user in old(menus) && old(menus)[user].browse.None?
      ensures !r.Updated? ==> menus == old(menus) && pending == old(pending) && nextTimer == old(nextTimer)
      ensures r.Updated? ==>
        var e := old(menus)[user];
        var b := e.browse.value;
        var totalPages := TotalPages(|b.cards|);
        var newPage := Navigate(b.currentPage, customId, totalPages);
        && r.view == CardEmbed(b.cards, newPage, totalPages, b.category)
        && r.nav == NavigationRow(newPage, totalPages, false)
        && menus == old(menus)[user := Entry(e.message, old(nextTimer), Some(b.(currentPage := newPage)))]
        && pending == (old(pending) - {e.timeout})[old(nextTimer) := Timer(user, e.message)]
        && nextTimer == old(nextTimer) + 1
    {
      if user !in menus {
        return ExpiredNotice;
      }
      var menu := menus[user];
      if menu.browse.None? {
        return ButtonFailed;
      }
      var b := menu.browse.value;
      var totalPages := TotalPages(|b.cards|);
      var newPage := Navigate(b.currentPage, customId, totalPages);
      r := Updated(CardEmbed(b.cards, newPage, totalPages, b.category), NavigationRow(newPage, totalPages, false));
      CancelLeavesNoTimer(menus, pending, nextTimer, user);
      pending := pending - {menu.timeout};
      var t := nextTimer;
      nextTimer := nextTimer + 1;
      pending := pending[t := Timer(user, menu.message)];
      menus := menus[user := menu.(timeout := t, browse := Some(b.(currentPage := newPage)))];
    }

    /** Timer `timer` fires. A cancelled (or never armed) timer does nothing.
        A pending one strips its message's components and, only if that edit
        succeeds, deletes its user's entry, which is always the entry that
        armed it. */
    method Expire(timer: TimerId, editSucceeds: bool)
      requires Valid()
      modifies this
      ensures Valid()
      ensures nextTimer == old(nextTimer)
      ensures timer !in old(pending) ==> menus == old(menus) && pending == old(pending) && stripped == old(stripped)
      ensures timer in old(pending) ==>
        var tm := old(pending)[timer];
        && tm.user in old(menus) && old(menus)[tm.user].timeout == timer
        && pending == old(pending) - {timer}
        && menus == (if editSucceeds then old(menus) - {tm.user} else old(menus))
        && stripped == (if editSucceeds then old(stripped) + {tm.message} else old(stripped))
    {
      if timer in pending {
        var tm := pending[timer];
        CancelLeavesNoTimer(menus, pending, nextTimer, tm.user);
        pending := pending - {timer};
        if editSucceeds {
          stripped := stripped + {tm.message};
          menus := menus - {tm.user};
        }
      }
    }
  }

  /** Opening twice: the first menu's timer is cancelled and its message
      stripped, and one entry remains, on the second reply, with one
      pending timer. */
  method OpenTwice(user: UserId, owned: seq<Card>, first: MessageId, second: MessageId)
    returns (menus: map<UserId, Entry>, pending: map<TimerId, Timer>, stripped: set<MessageId>)
    requires |owned| > 0 && first != second
    ensures menus.Keys == {user} && menus[user].message == second && menus[user].browse.None?
    ensures first in stripped && second !in stripped
    ensures |pending| == 1 && forall t :: t in pending ==> pending[t] == Timer(user, second)
  {
    var registry := new MenuRegistry();
    var r1 := registry.Open(user, owned, [], true, false, first);
    var r2 := registry.Open(user, owned, [], true, false, second);
    menus, pending, stripped := registry.menus, registry.pending, registry.stripped;
  }

  /** Seven cards in a category: page 1 shows the first five with 'first'
      and 'previous' disabled and 'next' and 'last' enabled; 'next' shows
      the last two on page 2 with 'next' and 'last' disabled. */
  method SevenCardCategory(user: UserId, cards: seq<Card>, shown: MessageId)
    returns (onSelect: SelectReply, onNext: ButtonReply)
    requires |cards| == 7
    ensures onSelect.view.page == 1 && onSelect.view.totalPages == 2
    ensures |onSelect.view.fields| == 5 && forall k :: 0 <= k < 5 ==> onSelect.view.fields[k] == FieldOf(cards[k])
    ensures onSelect.nav == NavRow(true, true, false, false)
    ensures onNext.Updated? && onNext.view.page == 2 && onNext.view.totalPages == 2
    ensures |onNext.view.fields| == 2 && onNext.view.fields == [FieldOf(cards[5]), FieldOf(cards[6])]
    ensures onNext.nav == NavRow(false, false, true, true)
  {
    var registry := new MenuRegistry();
    var r := registry.Open(user, cards, [], true, false, shown);
    onSelect := registry.SelectCategory(user, "Comun", cards, shown);
    onNext := registry.PressButton(user, "next");
  }

  /** Once the timer has fired and stripped the menu, a button gets the
      expiry notice and no entry comes back. */
  method ButtonAfterExpiry(user: UserId, cards: seq<Card>, shown: MessageId)
    returns (reply: ButtonReply, menus: map<UserId, Entry>)
    ensures reply == ExpiredNotice
    ensures user !in menus
  {
    var registry := new MenuRegistry();
    var selected := registry.SelectCategory(user, "Shiny", cards, shown);
    registry.Expire(registry.menus[user].timeout, true);
    reply := registry.PressButton(user, "next");
    menus := registry.menus;
  }

  /** A button on a menu the command opened, before any category is
      chosen, fails: that entry has no cards. */
  method ButtonBeforeCategory(user: UserId, owned: seq<Card>, shown: MessageId)
    returns (reply: ButtonReply)
    requires |owned| > 0
    ensures reply == ButtonFailed
  {
    var registry := new MenuRegistry();
    var r := registry.Open(user, owned, [], true, false, shown);
    reply := registry.PressButton(user, "first");
  }
}
