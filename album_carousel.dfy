/** The `/mostrar` command: one card of the user's collection at a time,
    with 'Previous' and 'Next' buttons that wrap around. The index shown is
    carried in the buttons' custom ids, `prev:<index>` and `next:<index>`,
    and read back when a button is pressed. */
module AlbumCarousel {
  import opened Wrappers
  import opened JsText

  /** One card of the user's collection, as the carousel query returns it. */
  datatype Album = Album(id: int, name: string, img: string, description: string, category: string)

  /** The two ways the command is reached: the slash command, with its
      optional card id, or one of its buttons. */
  datatype Interaction = SlashCommand(albumId: Option<int>) | ButtonPress(customId: string)

  /** The custom ids of the 'Previous' and 'Next' buttons. */
  datatype Buttons = Buttons(prevId: string, nextId: string)

  /** The reply: the "no cards" notice, one card with its index and its
      buttons (sent as a new reply, or as an update of the pressed message
      when `inPlace`), or the generic error reply. */
  datatype ShowReply =
    | NoCardsNotice
    | Show(album: Album, index: nat, buttons: Option<Buttons>, inPlace: bool)
    | ShowFailed

  /** A fragment of SQL text: literal text or a `?` placeholder. */
  datatype SqlPart = Text(text: string) | Placeholder

  /** A bound query parameter: the user's id or a card id. */
  datatype SqlParam = UserParam(user: string) | CardIdParam(id: int)

  /** The carousel query: the user's cards, joined with the catalog,
      filtered by the user's id. */
  const AlbumQuery: seq<SqlPart> := [
    Text("\n            SELECT \n            cards.id, cards.name, cards.img, cards.description, cards.category \n            FROM cards \n            JOIN usercards\n            ON cards.id = usercards.card_id \n            WHERE usercards.discord_id_num = "),
    Placeholder,
    Text("\n        ")
  ]

  /** The filter appended when a card id is given. */
  const CardIdFilter: seq<SqlPart> := [Text(" AND cards.id = "), Placeholder]

  function Placeholders(query: seq<SqlPart>): (count: nat)
    ensures count <= |query|
  {
    if query == [] then 0 else (if query[0].Placeholder? then 1 else 0) + Placeholders(query[1..])
  }

  lemma {:induction false} PlaceholdersAppend(a: seq<SqlPart>, b: seq<SqlPart>)
    ensures Placeholders(a + b) == Placeholders(a) + Placeholders(b)
    decreases |a|
  {
    if a == [] {
      assert a + b == b;
    } else {
      PlaceholdersAppend(a[1..], b);
      assert (a + b)[0] == a[0];
      assert (a + b)[1..] == a[1..] + b;
    }
  }

  /** The query and its parameters for the user's cards, restricted to one
      card id when one is given. Every placeholder has its parameter. */
  method BuildAlbumQuery(user: string, albumId: Option<int>) returns (query: seq<SqlPart>, params: seq<SqlParam>)
    ensures Placeholders(query) == |params|
    ensures |params| >= 1 && params[0] == UserParam(user)
    ensures albumId.None? ==> query == AlbumQuery && params == [UserParam(user)]
    ensures albumId.Some? ==> query == AlbumQuery + CardIdFilter && params == [UserParam(user), CardIdParam(albumId.value)]
  {
    query := AlbumQuery;
    params := [UserParam(user)];
    assert Placeholders(AlbumQuery[2..]) == 0;
    assert Placeholders(query) == 1;
    if albumId.Some? {
      PlaceholdersAppend(query, CardIdFilter);
      query := query + CardIdFilter;
      params := params + [CardIdParam(albumId.value)];
    }
  }

  /** The cards with id `id`, in order. */
  function WithId(albums: seq<Album>, id: int): (r: seq<Album>)
    ensures |r| <= |albums|
    ensures forall a :: a in r <==> a in albums && a.id == id
  {
    if albums == [] then []
    else (if albums[0].id == id then [albums[0]] else []) + WithId(albums[1..], id)
  }

  /** The rows the query returns, from the user's collection `owned` (in
      the order the store returns it): the slash command filters by its card
      id when it has one; a button reloads the whole collection. */
  function Fetched(interaction: Interaction, owned: seq<Album>): (rows: seq<Album>)
    ensures interaction.ButtonPress? ==> rows == owned
    ensures interaction.SlashCommand? && interaction.albumId.None? ==> rows == owned
    ensures interaction.SlashCommand? && interaction.albumId.Some? ==>
      forall a :: a in rows <==> a in owned && a.id == interaction.albumId.value
  {
    match interaction
    case SlashCommand(albumId) => if albumId.Some? then WithId(owned, albumId.value) else owned
    case ButtonPress(_) => owned
  }

  /** `a % n` with JavaScript's remainder, which takes the sign of `a`. */
  function JsRem(a: int, n: int): (r: int)
    requires n > 0
    ensures -n < r < n
    ensures a >= 0 ==> r == a % n
  {
    if a >= 0 then a % n else -((-a) % n)
  }

  /** The index after a button: 'prev' steps back and 'next' forward, both
      wrapping around the `count` cards; any other action keeps the index.
      NaN (None) stays NaN, and so does any step over zero cards. */
  function Step(action: string, index: Option<int>, count: nat): (r: Option<int>)
    ensures action != "prev" && action != "next" ==> r == index
    ensures (action == "prev" || action == "next") && index.Some? && 0 <= index.value < count ==>
      r.Some? && 0 <= r.value < count
    ensures (action == "prev" || action == "next") && (count == 0 || index.None?) ==> r.None?
  {
    if action != "prev" && action != "next" then index
    else if index.None? || count == 0 then None
    else if action == "prev" then Some(JsRem(index.value - 1 + count, count))
    else Some(JsRem(index.value + 1, count))
  }

  /** 'next' moves to the following card, wrapping from the last to the
      first, and 'prev' undoes it (and the other way round). */
  lemma StepsAreInverse(i: int, count: nat)
    requires 0 <= i < count
    ensures Step("next", Some(i), count) == Some(if i == count - 1 then 0 else i + 1)
    ensures Step("prev", Some(i), count) == Some(if i == 0 then count - 1 else i - 1)
    ensures Step("prev", Step("next", Some(i), count), count) == Some(i)
    ensures Step("next", Step("prev", Some(i), count), count) == Some(i)
  {
    WrapAround(i + 1, count);
    WrapAround(i - 1 + count, count);
    var j := if i == count - 1 then 0 else i + 1;
    WrapAround(j - 1 + count, count);
    var k := if i == 0 then count - 1 else i - 1;
    WrapAround(k + 1, count);
  }

  /** The remainder of a value in [0, 2n) by n. */
  lemma WrapAround(a: int, n: int)
    requires n > 0 && 0 <= a < 2 * n
    ensures a % n == if a < n then a else a - n
  {
    if a < n {
      assert a == 0 * n + a;
    } else {
      assert a == 1 * n + (a - n);
    }
  }

  /** The custom id of a button: the action, a colon and the index. */
  function CustomId(action: string, index: nat): (id: string)
    ensures |id| > |action| + 1 && id[..|action|] == action && id[|action|] == ':'
    ensures AllDigits(id[|action| + 1..]) && (|id| > |action| + 2 ==> id[|action| + 1] != '0')
  {
    action + ":" + DecimalString(index)
  }

  /** How a pressed button's custom id is read: the text before the first
      colon is the action, the text after it (up to any second colon) is
      given to `parseInt`; without a colon the index is NaN. */
  function ParseCustomId(customId: string): (r: (string, Option<int>))
    ensures |r.0| <= |customId| && customId[..|r.0|] == r.0 && ':' !in r.0
    ensures |r.0| < |customId| ==> customId[|r.0|] == ':'
    ensures ':' !in customId ==> r == (customId, None)
    ensures |r.0| < |customId| && ':' !in customId[|r.0| + 1..] ==> r.1 == ParseInt(customId[|r.0| + 1..])
  {
    var parts := Split(customId, ':');
    SplitFirstPiece(customId, ':');
    var action := parts[0];
    if |action| < |customId| && ':' !in customId[|action| + 1..] then
      var rest := customId[|action| + 1..];
      assert customId == action + [':'] + rest;
      SplitAfterPrefix(action, ':', rest);
      SplitWithoutSeparator(rest, ':');
      (action, ParseInt(rest))
    else
      assert |action| < |customId| ==> customId[|action|] in customId;
      assert customId[..|customId|] == customId;
      (action, if |parts| > 1 then ParseInt(parts[1]) else None)
  }

  /** A custom id built from an action without a colon and an index reads
      back as that action and index. */
  lemma CustomIdRoundTrip(action: string, index: nat)
    requires ':' !in action
    ensures ParseCustomId(CustomId(action, index)) == (action, Some(index))
  {
    var digits := DecimalString(index);
    forall i | 0 <= i < |digits| ensures digits[i] != ':' {
      assert IsDigit(digits[i]);
    }
    assert CustomId(action, index) == action + [':'] + digits;
    SplitAfterPrefix(action, ':', digits);
    SplitWithoutSeparator(digits, ':');
    ParseIntDecimal(index);
  }

  /** The reply for the fetched `rows` and the chosen index. */
  function Render(rows: seq<Album>, index: Option<int>, inPlace: bool): (r: ShowReply)
    ensures r.NoCardsNotice? <==> |rows| == 0
    ensures r.ShowFailed? <==> |rows| > 0 && (index.None? || !(0 <= index.value < |rows|))
    ensures r.Show? ==> index == Some(r.index as int) && r.index < |rows| && r.album == rows[r.index] && r.inPlace == inPlace
    ensures r.Show? ==> (r.buttons.Some? <==> |rows| > 1)
    ensures r.Show? && r.buttons.Some? ==> r.buttons.value == Buttons(CustomId("prev", r.index), CustomId("next", r.index))
  {
    if |rows| == 0 then NoCardsNotice
    else if index.None? || !(0 <= index.value < |rows|) then ShowFailed
    else
      var i: nat := index.value;
      Show(rows[i], i, if |rows| > 1 then Some(Buttons(CustomId("prev", i), CustomId("next", i))) else None, inPlace)
  }

  /** The command. The slash command shows the first row; a button reads
      its custom id, steps the index over the reloaded collection and
      updates the message in place. No rows gives only the "no cards"
      notice; an index that does not name a row gives the error reply. */
  function Respond(interaction: Interaction, owned: seq<Album>): (r: ShowReply)
    ensures var rows := Fetched(interaction, owned);
      && (r.NoCardsNotice? <==> |rows| == 0)
      && (r.Show? ==> r.index < |rows| && r.album == rows[r.index])
      && (r.Show? ==> (r.buttons.Some? <==> |rows| > 1))
      && (r.Show? && r.buttons.Some? ==>
            r.buttons.value == Buttons(CustomId("prev", r.index), CustomId("next", r.index)))
      && (r.Show? ==> r.inPlace == interaction.ButtonPress?)
    ensures interaction.SlashCommand? && |Fetched(interaction, owned)| > 0 ==> r.Show? && r.index == 0
  {
    var rows := Fetched(interaction, owned);
    match interaction
    case SlashCommand(_) => Render(rows, Some(0), false)
    case ButtonPress(customId) =>
      var (action, index) := ParseCustomId(customId);
      Render(rows, Step(action, index, |rows|), true)
  }

  /** Pressing 'Next' on a shown card shows the following one (wrapping
      around), and pressing 'Previous' on that comes back: the index
      survives the trip through the custom id. */
  lemma NextThenPrevious(owned: seq<Album>, i: nat)
    requires i < |owned| && |owned| > 1
    ensures var shown := Render(owned, Some(i), true);
      && shown.Show? && shown.buttons.Some?
      && var next := Respond(ButtonPress(shown.buttons.value.nextId), owned);
         && next == Render(owned, Some(if i == |owned| - 1 then 0 else i + 1), true)
         && next.Show? && next.buttons.Some?
         && Respond(ButtonPress(next.buttons.value.prevId), owned) == shown
  {
    var n := |owned|;
    var j := if i == n - 1 then 0 else i + 1;
    CustomIdRoundTrip("next", i);
    StepsAreInverse(i, n);
    CustomIdRoundTrip("prev", j);
    StepsAreInverse(j, n);
  }
}
