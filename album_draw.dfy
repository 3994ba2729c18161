/** The `/generar` command: a card is drawn by cumulative percentage,
    at most once every six hours, and the user's owned amount of the drawn
    card is recorded, capped at 2. The `users` and `userCards` tables are
    maps; the clock and the random roll are parameters. */
module AlbumDraw {
  import opened Wrappers

  /** A catalog card and its draw percentage. */
  datatype CatalogCard = CatalogCard(id: int, name: string, description: string, img: string, category: string, percentage: real)

  /** The running percentage after card `k`: the sum of the percentages of
      cards 0 to k. */
  function Cumulative(cards: seq<CatalogCard>, k: nat): real
    requires k < |cards|
  {
    (if k == 0 then 0.0 else Cumulative(cards, k - 1)) + cards[k].percentage
  }

  /** The sum of all percentages. */
  function TotalChance(cards: seq<CatalogCard>): real
  {
    if cards == [] then 0.0 else Cumulative(cards, |cards| - 1)
  }

  /** Card `k` is the first whose running percentage reaches `roll`. */
  ghost predicate FirstReaching(cards: seq<CatalogCard>, roll: real, k: nat)
  {
    && k < |cards|
    && roll <= Cumulative(cards, k)
    && forall j :: 0 <= j < k ==> Cumulative(cards, j) < roll
  }

  /** The weighted pick: walk the catalog adding up percentages and return
      the first card at which the running sum reaches `roll` (the source
      draws roll uniformly from [0, 100)); None when no running sum does. */
  method PickAlbum(cards: seq<CatalogCard>, roll: real) returns (picked: Option<CatalogCard>)
    ensures picked.None? <==> forall k :: 0 <= k < |cards| ==> Cumulative(cards, k) < roll
    ensures picked.Some? ==> exists k: nat :: FirstReaching(cards, roll, k) && picked.value == cards[k]
  {
    var cumulativeChance := 0.0;
    var i := 0;
    while i < |cards|
      invariant 0 <= i <= |cards|
      invariant cumulativeChance == if i == 0 then 0.0 else Cumulative(cards, i - 1)
      invariant forall j :: 0 <= j < i ==> Cumulative(cards, j) < roll
    {
      cumulativeChance := cumulativeChance + cards[i].percentage;
      assert cumulativeChance == Cumulative(cards, i);
      if roll <= cumulativeChance {
        assert FirstReaching(cards, roll, i);
        return Some(cards[i]);
      }
      i := i + 1;
    }
    return None;
  }

  predicate NonNegativeChances(cards: seq<CatalogCard>)
  {
    forall i :: 0 <= i < |cards| ==> cards[i].percentage >= 0.0
  }

  /** With non-negative percentages the running sums never decrease. */
  lemma {:induction false} CumulativeMonotonic(cards: seq<CatalogCard>, j: nat, k: nat)
    requires NonNegativeChances(cards)
    requires j <= k < |cards|
    ensures Cumulative(cards, j) <= Cumulative(cards, k)
    decreases k - j
  {
    if j < k {
      CumulativeMonotonic(cards, j, k - 1);
    }
  }

  /** With non-negative percentages the pick fails exactly when the catalog
      is empty or the roll exceeds the total of all percentages. */
  lemma PickFailsExactlyBeyondTotal(cards: seq<CatalogCard>, roll: real)
    requires NonNegativeChances(cards)
    ensures (forall k :: 0 <= k < |cards| ==> Cumulative(cards, k) < roll)
        <==> (|cards| == 0 || TotalChance(cards) < roll)
  {
    if |cards| > 0 {
      assert TotalChance(cards) == Cumulative(cards, |cards| - 1);
      if TotalChance(cards) < roll {
        forall k | 0 <= k < |cards| ensures Cumulative(cards, k) < roll {
          CumulativeMonotonic(cards, k, |cards| - 1);
        }
      }
    }
  }

  /** The converse of the pick's contract: with non-negative percentages,
      the card whose slice of the running total, (Cumulative(k - 1),
      Cumulative(k)], holds the roll is the first to reach it, and so the
      one picked. */
  lemma SliceHoldingRollIsPicked(cards: seq<CatalogCard>, roll: real, k: nat)
    requires NonNegativeChances(cards)
    requires k < |cards|
    requires k > 0 ==> Cumulative(cards, k - 1) < roll
    requires roll <= Cumulative(cards, k)
    ensures FirstReaching(cards, roll, k)
  {
    forall j | 0 <= j < k ensures Cumulative(cards, j) < roll {
      CumulativeMonotonic(cards, j, k - 1);
    }
  }

  /** When the percentages add up to 100 or more, every roll in [0, 100)
      picks a card. */
  lemma FullCatalogAlwaysPicks(cards: seq<CatalogCard>, roll: real)
    requires TotalChance(cards) >= 100.0 && 0.0 <= roll < 100.0
    ensures exists k :: 0 <= k < |cards| && roll <= Cumulative(cards, k)
  {
    assert |cards| > 0;
    assert roll <= Cumulative(cards, |cards| - 1);
  }

  /** Six hours, in milliseconds. */
  const CooldownMs: int := 6 * 60 * 60 * 1000

  const MinuteMs: int := 60 * 1000

  /** Minutes still to wait after `elapsedMs` milliseconds since the last
      draw: the ceiling of (6 - elapsed hours) * 60 while fewer than six
      hours have passed, else 0. */
  function RemainingMinutes(elapsedMs: int): (minutes: nat)
    ensures minutes > 0 <==> elapsedMs < CooldownMs
    ensures minutes > 0 ==> (minutes - 1) * MinuteMs < CooldownMs - elapsedMs <= minutes * MinuteMs
    ensures elapsedMs >= 0 ==> minutes <= 360
  {
    if elapsedMs < CooldownMs then (CooldownMs - elapsedMs + MinuteMs - 1) / MinuteMs else 0
  }

  /** The wait of a user whose last draw is `lastDraw` (None when no time is
      recorded): no recorded time means no wait. */
  function CooldownOf(lastDraw: Option<int>, now: int): (minutes: nat)
    ensures lastDraw.None? ==> minutes == 0
    ensures lastDraw.Some? ==> (minutes > 0 <==> now - lastDraw.value < CooldownMs)
  {
    if lastDraw.None? then 0 else RemainingMinutes(now - lastDraw.value)
  }

  /** The owned amount after one more draw of a card: 1 for a first draw,
      then one more, capped at 2. */
  function NextAmount(previous: Option<int>): (amount: int)
    ensures amount <= 2
    ensures previous.None? ==> amount == 1
    ensures previous.Some? && previous.value >= 1 ==> amount == 2
  {
    if previous.None? then 1 else if previous.value + 1 <= 2 then previous.value + 1 else 2
  }

  /** The amount after `draws` draws of one card, starting with none. */
  function AmountAfter(draws: nat): Option<int>
  {
    if draws == 0 then None else Some(NextAmount(AmountAfter(draws - 1)))
  }

  /** Drawing a card again and again owns it once, then twice, never more. */
  lemma {:induction false} AmountIsCappedAtTwo(draws: nat)
    ensures draws == 0 <==> AmountAfter(draws).None?
    ensures draws >= 1 ==> AmountAfter(draws) == Some(if draws == 1 then 1 else 2)
  {
    if draws > 1 {
      AmountIsCappedAtTwo(draws - 1);
    }
  }

  /** A row of the `users` table: the user name and the time of the last
      draw, if recorded. */
  datatype UserRecord = UserRecord(name: string, lastDraw: Option<int>)

  /** The reply to `/generar`. */
  datatype DrawReply = WaitNotice(minutes: nat) | NothingPicked | Drawn(card: CatalogCard)

  class CardStore {
    /** The `users` table, by numeric user id. */
    var users: map<string, UserRecord>
    /** The `userCards` table: the amount owned, by user id and card id. */
    var userCards: map<(string, int), int>

    /** Every stored amount is 1 or 2. */
    ghost predicate Valid()
      reads this
    {
      forall key :: key in userCards ==> 1 <= userCards[key] <= 2
    }

    constructor ()
      ensures Valid() && users == map[] && userCards == map[]
    {
      users, userCards := map[], map[];
    }

    /** Registers an unknown user, with `now` as the last draw, and reports
        them new with no wait; for a known user reports the wait left by the
        recorded last draw. */
    method CheckUserAndCooldown(name: string, user: string, now: int) returns (isNewUser: bool, remaining: nat)
      modifies this
      ensures userCards == old(userCards)
      ensures isNewUser <==> user !in old(users)
      ensures isNewUser ==> remaining == 0 && users == old(users)[user := UserRecord(name, Some(now))]
      ensures !isNewUser ==> users == old(users) && remaining == CooldownOf(old(users)[user].lastDraw, now)
    {
      if user !in users {
        users := users[user := UserRecord(name, Some(now))];
        return true, 0;
      }
      return false, CooldownOf(users[user].lastDraw, now);
    }

    /** The command. A known user still cooling down gets the wait notice
        and no table changes. Otherwise a known user's draw time is set to
        `now` before the pick, so a failed pick still starts the cooldown;
        a picked card is added with amount 1, or its amount raised to at
        most 2. */
    method Generate(name: string, user: string, now: int, catalog: seq<CatalogCard>, roll: real) returns (reply: DrawReply)
      requires Valid()
      modifies this
      ensures Valid()
      ensures var known := user in old(users);
        var wait := if known then CooldownOf(old(users)[user].lastDraw, now) else 0;
        && (reply.WaitNotice? <==> wait > 0)
        && (reply.WaitNotice? ==> reply.minutes == wait && users == old(users) && userCards == old(userCards))
        && (!reply.WaitNotice? ==>
              users == old(users)[user := if known then old(users)[user].(lastDraw := Some(now)) else UserRecord(name, Some(now))])
      ensures reply.NothingPicked? ==> userCards == old(userCards)
      ensures reply.NothingPicked? ==> forall k :: 0 <= k < |catalog| ==> Cumulative(catalog, k) < roll
      ensures reply.Drawn? ==>
        && (exists k: nat :: FirstReaching(catalog, roll, k) && reply.card == catalog[k])
        && var key := (user, reply.card.id);
           userCards == old(userCards)[key := NextAmount(if key in old(userCards) then Some(old(userCards)[key]) else None)]
    {
      var isNewUser, remaining := CheckUserAndCooldown(name, user, now);
      if !isNewUser && remaining > 0 {
        return WaitNotice(remaining);
      }
      if !isNewUser {
        users := users[user := users[user].(lastDraw := Some(now))];
      }
      var picked := PickAlbum(catalog, roll);
      if picked.None? {
        return NothingPicked;
      }
      var key := (user, picked.value.id);
      userCards := userCards[key := NextAmount(if key in userCards then Some(userCards[key]) else None)];
      reply := Drawn(picked.value);
    }
  }

  /** A known user whose last draw is six hours old, drawing from an empty
      catalog, gets nothing and still has to wait the full six hours. */
  method EmptyCatalogStillStartsCooldown(user: string, now: int)
    returns (first: DrawReply, second: DrawReply)
    ensures first == NothingPicked
    ensures second == WaitNotice(360)
  {
    var store := new CardStore();
    var isNew, wait := store.CheckUserAndCooldown("name", user, now - CooldownMs);
    first := store.Generate("name", user, now, [], 50.0);
    second := store.Generate("name", user, now, [], 50.0);
  }

  /** A new user draws at once, is stored with the draw time, and the next
      draw a minute later waits 359 minutes. */
  method NewUserDrawsThenWaits(user: string, now: int, card: CatalogCard)
    returns (first: DrawReply, second: DrawReply, amount: int)
    requires card.percentage == 100.0
    ensures first == Drawn(card) && amount == 1
    ensures second == WaitNotice(359)
  {
    var store := new CardStore();
    first := store.Generate("name", user, now, [card], 50.0);
    assert Cumulative([card], 0) == 100.0;
    assert first.Drawn? && first.card == card;
    amount := store.userCards[(user, card.id)];
    second := store.Generate("name", user, now + MinuteMs, [card], 50.0);
  }
}
