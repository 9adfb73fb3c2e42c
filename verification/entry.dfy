/** `parse_entry`: one feed entry to one session record. */
module Entry {
  import opened Wrappers
  import opened Text
  import opened Calendar
  import opened Scan

  /** The fields of a feed entry the scraper reads. `content` is the value of
      the entry's first content block; every field may be missing. */
  datatype RawEntry = RawEntry(
    content: Option<string>,
    summary: Option<string>,
    published: Option<string>,
    updated: Option<string>,
    gdWhere: Option<string>,
    title: Option<string>)

  /** The local year and month `datetime.now()` reports. */
  datatype Clock = Clock(year: int, month: int)

  /** The record `parse_entry` returns. */
  datatype Session = Session(
    date: Option<Date>,
    location: Option<string>,
    dmLimit: Option<nat>,
    playerLimit: Option<nat>,
    dmSignedIn: Option<nat>,
    playerSignedIn: Option<nat>,
    title: string,
    openSeats: int)

  /** `player_limit - player_signed_in` with an operand still `None`
      raises a `TypeError`, which nothing catches. */
  datatype ParseError = MissingPlayerCounts

  /** The text the weekday token is searched in: `content or summary`. */
  function DateSearchText(content: string, summary: string): (t: string)
    ensures content != [] ==> t == content
    ensures content == [] ==> t == summary
  {
    if content != [] then content else summary
  }

  /** Year and month `(y1, m1)` is not earlier than `(y2, m2)`. */
  predicate MonthNotBefore(y1: int, m1: int, y2: int, m2: int) {
    y1 > y2 || (y1 == y2 && m1 >= m2)
  }

  /** The year given to a token's month: the first year in which that month
      does not lie before the current month. */
  function RolloverYear(month: int, clock: Clock): (y: int)
    ensures MonthNotBefore(y, month, clock.year, clock.month)
    ensures !MonthNotBefore(y - 1, month, clock.year, clock.month)
  {
    if month < clock.month then clock.year + 1 else clock.year
  }

  /** The year rule as the source words it: the current year, plus one
      exactly when the month is earlier than the current month. */
  lemma RolloverYearRule(month: int, clock: Clock, y: int)
    requires MonthNotBefore(y, month, clock.year, clock.month)
    requires !MonthNotBefore(y - 1, month, clock.year, clock.month)
    ensures y == clock.year + (if month < clock.month then 1 else 0)
  {
  }

  /** The date a weekday token names, or none when the day and month do not
      form a calendar date in the rollover year. */
  function TokenDate(text: string, m: DateMatch, clock: Clock): (r: Option<Date>)
    requires DateTokenAt(text, m)
    ensures r.Some? ==> ValidDate(r.value)
    ensures r.Some? ==> r.value.day == TokenDay(text, m) && r.value.month == TokenMonth(text, m)
    ensures r.Some? ==> r.value.year == RolloverYear(TokenMonth(text, m), clock)
    ensures r.None? <==> !ValidDate(Date(RolloverYear(TokenMonth(text, m), clock), TokenMonth(text, m), TokenDay(text, m)))
  {
    var month := TokenMonth(text, m);
    MakeDate(RolloverYear(month, clock), month, TokenDay(text, m))
  }

  /** The date of an entry: from the leftmost weekday token of the content
      (of the summary when the content is empty), otherwise from the first
      ten characters of `published`, or of `updated` when `published` is
      missing. */
  function ExtractDate(content: string, summary: string, published: Option<string>,
                       updated: Option<string>, clock: Clock): (r: Option<Date>)
    ensures r.Some? ==> ValidDate(r.value)
  {
    var text := DateSearchText(content, summary);
    match FindDateToken(text, 0)
    case Some(m) => TokenDate(text, m, clock)
    case None => IsoPrefixDate(published.GetOr(updated.GetOr("")))
  }

  /** When a weekday token is present, it alone decides the date: the
      timestamps play no part. */
  lemma TokenBeatsTimestamps(content: string, summary: string, p1: Option<string>, u1: Option<string>,
                             p2: Option<string>, u2: Option<string>, clock: Clock)
    requires FindDateToken(DateSearchText(content, summary), 0).Some?
    ensures ExtractDate(content, summary, p1, u1, clock) == ExtractDate(content, summary, p2, u2, clock)
  {
  }

  /** The summary is consulted only when the content is empty. */
  lemma SummaryOnlyWithoutContent(content: string, s1: string, s2: string,
                                  published: Option<string>, updated: Option<string>, clock: Clock)
    requires content != []
    ensures ExtractDate(content, s1, published, updated, clock) == ExtractDate(content, s2, published, updated, clock)
  {
  }

  /** Without a token, a present `published` shadows `updated`, even when
      it is empty. */
  lemma PublishedShadowsUpdated(content: string, summary: string, published: string,
                                u1: Option<string>, u2: Option<string>, clock: Clock)
    requires FindDateToken(DateSearchText(content, summary), 0).None?
    ensures ExtractDate(content, summary, Some(published), u1, clock) == IsoPrefixDate(published)
    ensures ExtractDate(content, summary, Some(published), u1, clock) == ExtractDate(content, summary, Some(published), u2, clock)
  {
  }

  /** A weekday token decides the date: the token with no other token
      before it, read in the rollover year. */
  lemma TokenDecides(content: string, summary: string, published: Option<string>,
                     updated: Option<string>, clock: Clock, m: DateMatch)
    requires DateTokenAt(DateSearchText(content, summary), m)
    requires forall m': DateMatch | m'.pos < m.pos :: !DateTokenAt(DateSearchText(content, summary), m')
    ensures ExtractDate(content, summary, published, updated, clock) == TokenDate(DateSearchText(content, summary), m, clock)
  {
    FindDateTokenIsLeftmost(DateSearchText(content, summary), m);
  }

  /** Without a token and without `published`, the date comes from the
      first ten characters of `updated`, and from nothing when that is
      missing too. */
  lemma UpdatedWithoutPublished(content: string, summary: string, updated: Option<string>, clock: Clock)
    requires forall m: DateMatch :: !DateTokenAt(DateSearchText(content, summary), m)
    ensures ExtractDate(content, summary, None, updated, clock) == IsoPrefixDate(updated.GetOr(""))
    ensures updated.None? ==> ExtractDate(content, summary, None, updated, clock).None?
  {
    assert IsoPrefixDate("").None?;
  }

  /** Without a weekday token anywhere, a timestamp starting with a
      well-formed date yields that date. */
  lemma TimestampFallback(content: string, summary: string, d: Date, rest: string,
                          updated: Option<string>, clock: Clock)
    requires ValidDate(d)
    requires forall m: DateMatch :: !DateTokenAt(DateSearchText(content, summary), m)
    ensures ExtractDate(content, summary, Some(FormatIsoDate(d) + rest), updated, clock) == Some(d)
  {
    IsoPrefixOfTimestamp(d, rest);
  }

  /** `GM` and `players` begin with a letter, so the counts pattern can
      find where each count ends. */
  lemma CountWords()
    ensures IsCountWord("GM") && IsCountWord("players")
  {
    ClassesApart('G');
    assert 'G' !in Whitespace && 'p' !in Whitespace;
  }

  /** The word after the game-master counts. */
  function GmWord(): (w: string)
    ensures w == "GM" && IsCountWord(w)
  {
    CountWords();
    "GM"
  }

  /** The word after the player counts. */
  function PlayersWord(): (w: string)
    ensures w == "players" && IsCountWord(w)
  {
    CountWords();
    "players"
  }

  /** `(signed_in, limit)` from the leftmost `<digits>/<digits>\s*word` of
      the unescaped content; nothing when the content is empty. */
  function ExtractCounts(content: string, unescape: string -> string, word: string): (r: Option<(nat, nat)>)
    requires IsCountWord(word)
    ensures r.None? <==> content == [] || forall m: CountsMatch :: !CountsAt(unescape(content), word, m)
    ensures r.Some? ==> exists m: CountsMatch ::
              && CountsAt(unescape(content), word, m)
              && (forall m': CountsMatch | m'.pos < m.pos :: !CountsAt(unescape(content), word, m'))
              && r.value == CountsValues(unescape(content), word, m)
  {
    if content == [] then None
    else
      var html := unescape(content);
      match FindCounts(html, word, 0)
      case Some(m) => Some(CountsValues(html, word, m))
      case None => None
  }

  /** The counts are those of the leftmost match: any match with no match
      before it gives them. */
  lemma CountsFromLeftmost(content: string, unescape: string -> string, word: string, m: CountsMatch)
    requires IsCountWord(word) && content != []
    requires CountsAt(unescape(content), word, m)
    requires forall m': CountsMatch | m'.pos < m.pos :: !CountsAt(unescape(content), word, m')
    ensures ExtractCounts(content, unescape, word) == Some(CountsValues(unescape(content), word, m))
  {
    FindCountsIsLeftmost(unescape(content), word, m);
  }

  /** The location from the `gd:where` value: the text before the first
      comma, with whitespace and then double quotes stripped from its ends. */
  function WhereLocation(where: string): (r: string)
    ensures ',' !in r
    ensures Unpadded(r, {'"'})
    ensures IsInfix(r, where)
  {
    WhereLocationPiece(where);
    Strip(Trim(BeforeFirst(where, ',')), {'"'})
  }

  lemma WhereLocationPiece(where: string)
    ensures var r := Strip(Trim(BeforeFirst(where, ',')), {'"'});
            IsInfix(r, where) && OutOfClass(r, 0, |r|, {','})
  {
    var head := BeforeFirst(where, ',');
    var trimmed := Trim(head);
    var r := Strip(trimmed, {'"'});
    StripIsInfix(head, Whitespace);
    StripIsInfix(trimmed, {'"'});
    InfixTransitive(r, trimmed, head);
    InfixTransitive(r, head, where);
    InfixOutOfClass(r, head, {','});
  }

  /** A name written into `gd:where` with any whitespace and double quotes
      around it, and optionally a comma and more after that, is read back.
      Whitespace inside the quotes is part of the name and is kept. */
  lemma WhereRoundTrip(ws1: string, q1: string, name: string, q2: string, ws2: string, tail: string)
    requires InClass(ws1, 0, |ws1|, Whitespace) && InClass(ws2, 0, |ws2|, Whitespace)
    requires InClass(q1, 0, |q1|, {'"'}) && InClass(q2, 0, |q2|, {'"'})
    requires ',' !in name && Unpadded(q1 + name + q2, Whitespace) && Unpadded(name, {'"'})
    requires tail == [] || tail[0] == ','
    ensures WhereLocation(ws1 + q1 + name + q2 + ws2 + tail) == name
  {
    var quoted := q1 + name + q2;
    var head := ws1 + q1 + name + q2 + ws2;
    WhereHead(ws1, q1, name, q2, ws2, tail);
    assert head == ws1 + quoted + ws2;
    StripPadding(ws1, quoted, ws2, Whitespace);
    assert Trim(head) == quoted;
    StripPadding(q1, name, q2, {'"'});
    assert Strip(quoted, {'"'}) == name;
  }

  /** Neither a double quote nor a comma is whitespace. */
  lemma QuoteAndCommaNotSpace()
    ensures '"' !in Whitespace && ',' !in Whitespace
  {
  }

  /** The part before the first comma is the padded, quoted name. */
  lemma WhereHead(ws1: string, q1: string, name: string, q2: string, ws2: string, tail: string)
    requires InClass(ws1, 0, |ws1|, Whitespace) && InClass(ws2, 0, |ws2|, Whitespace)
    requires InClass(q1, 0, |q1|, {'"'}) && InClass(q2, 0, |q2|, {'"'})
    requires ',' !in name
    requires tail == [] || tail[0] == ','
    ensures BeforeFirst(ws1 + q1 + name + q2 + ws2 + tail, ',') == ws1 + q1 + name + q2 + ws2
  {
    var head := ws1 + q1 + name + q2 + ws2;
    var w := head + tail;
    QuoteAndCommaNotSpace();
    assert w == ws1 + q1 + name + q2 + ws2 + tail;
    assert w[..|head|] == head;
    assert ',' !in head by {
      assert forall c | c in head :: c in ws1 || c in q1 || c in name || c in q2 || c in ws2;
    }
    BeforeFirstCharacterised(w, ',', |head|);
  }

  /** The location from the content: the `[^<,]+` group after the leftmost
      `at\s+`, stripped of whitespace. */
  function FallbackLocation(html: string): (r: Option<string>)
    ensures r.Some? ==> OutOfClass(r.value, 0, |r.value|, Delimiters)
    ensures r.Some? ==> Unpadded(r.value, Whitespace) && IsInfix(r.value, html)
    ensures r.None? <==> forall j, w :: !AtCandidate(html, j, w)
    ensures r.Some? ==> exists m: AtMatch ::
              && AtMatchAt(html, m.pos, m.w)
              && (forall j: nat, w: nat | j < m.pos :: !AtCandidate(html, j, w))
              && r.value == Trim(AtGroup(html, m))
  {
    match FindAt(html, 0)
    case Some(m) =>
      var g := AtGroup(html, m);
      var l := Trim(g);
      StripIsInfix(g, Whitespace);
      InfixTransitive(l, g, html);
      InfixOutOfClass(l, g, Delimiters);
      Some(l)
    case None => None
  }

  /** The fallback location is the stripped group of the leftmost reading. */
  lemma FallbackFromLeftmost(html: string, m: AtMatch)
    requires AtMatchAt(html, m.pos, m.w)
    requires forall j: nat, w: nat | j < m.pos :: !AtCandidate(html, j, w)
    ensures FallbackLocation(html) == Some(Trim(AtGroup(html, m)))
  {
    FindAtIsLeftmost(html, m);
  }

  /** The `gd:where` location when it is present and non-empty. */
  function WhereOf(gdWhere: Option<string>): (r: Option<string>)
    ensures r.Some? <==> gdWhere.Some? && gdWhere.value != []
    ensures r.Some? ==> r.value == WhereLocation(gdWhere.value)
  {
    if gdWhere.Some? && gdWhere.value != [] then Some(WhereLocation(gdWhere.value)) else None
  }

  /** The location of an entry: the `gd:where` location when it is
      non-empty, otherwise the `at ...` text of the content when there is
      one; an empty `gd:where` location survives when neither applies. */
  function ExtractLocation(gdWhere: Option<string>, content: string, unescape: string -> string): (r: Option<string>)
    ensures r.Some? ==> ',' !in r.value
    ensures WhereOf(gdWhere).Some? && WhereOf(gdWhere).value != [] ==> r == WhereOf(gdWhere)
    ensures content == [] ==> r == WhereOf(gdWhere)
    ensures r.Some? && r.value != [] && r != WhereOf(gdWhere) ==>
              && '<' !in r.value
              && Unpadded(r.value, Whitespace)
              && IsInfix(r.value, unescape(content))
    ensures ((WhereOf(gdWhere).None? || WhereOf(gdWhere).value == []) && content != [] &&
             FallbackLocation(unescape(content)).Some?) ==> r == FallbackLocation(unescape(content))
    ensures FallbackLocation(unescape(content)).None? ==> r == WhereOf(gdWhere)
  {
    var primary := WhereOf(gdWhere);
    if (primary.None? || primary.value == []) && content != [] then
      match FallbackLocation(unescape(content))
      case Some(l) =>
        assert forall k | 0 <= k < |l| :: l[k] != ',' && l[k] != '<';
        Some(l)
      case None => primary
    else primary
  }

  /** When `gd:where` gives nothing or an empty name, the location is the
      stripped `at` group of the leftmost reading in the content. */
  lemma LocationFromAt(gdWhere: Option<string>, content: string, unescape: string -> string, m: AtMatch)
    requires WhereOf(gdWhere).None? || WhereOf(gdWhere).value == []
    requires content != []
    requires AtMatchAt(unescape(content), m.pos, m.w)
    requires forall j: nat, w: nat | j < m.pos :: !AtCandidate(unescape(content), j, w)
    ensures ExtractLocation(gdWhere, content, unescape) == Some(Trim(AtGroup(unescape(content), m)))
  {
    FallbackFromLeftmost(unescape(content), m);
  }

  /** What a successfully parsed entry always satisfies. */
  predicate WellFormed(s: Session) {
    && (s.date.Some? ==> ValidDate(s.date.value))
    && s.playerLimit.Some? && s.playerSignedIn.Some?
    && s.openSeats == s.playerLimit.value - s.playerSignedIn.value
    && (s.dmLimit.Some? <==> s.dmSignedIn.Some?)
    && Unpadded(s.title, Whitespace)
    && (s.location.Some? ==> ',' !in s.location.value)
  }

  /** `parse_entry`. It fails exactly when the content has no
      `<digits>/<digits> players` count, since `open_seats` is then computed
      from `None`. */
  function ParseEntry(e: RawEntry, clock: Clock, unescape: string -> string): (r: Result<Session, ParseError>)
    ensures r.Success? ==> WellFormed(r.value)
    ensures r.Success? <==> ExtractCounts(e.content.GetOr(""), unescape, PlayersWord()).Some?
    ensures r.Success? ==> r.value.title == Trim(e.title.GetOr(""))
    ensures r.Success? ==>
              r.value.date == ExtractDate(e.content.GetOr(""), e.summary.GetOr(""), e.published, e.updated, clock)
    ensures r.Success? ==> r.value.location == ExtractLocation(e.gdWhere, e.content.GetOr(""), unescape)
    ensures r.Success? ==>
              ExtractCounts(e.content.GetOr(""), unescape, PlayersWord())
                == Some((r.value.playerSignedIn.value, r.value.playerLimit.value))
    ensures r.Success? ==>
              ExtractCounts(e.content.GetOr(""), unescape, GmWord())
                == (if r.value.dmSignedIn.Some? then Some((r.value.dmSignedIn.value, r.value.dmLimit.value)) else None)
  {
    var content := e.content.GetOr("");
    var summary := e.summary.GetOr("");
    var date := ExtractDate(content, summary, e.published, e.updated, clock);
    var gm := ExtractCounts(content, unescape, GmWord());
    var players := ExtractCounts(content, unescape, PlayersWord());
    var location := ExtractLocation(e.gdWhere, content, unescape);
    var title := Trim(e.title.GetOr(""));
    assert date.Some? ==> ValidDate(date.value);
    assert location.Some? ==> ',' !in location.value;
    assert Unpadded(title, Whitespace);
    if players.None? then Failure(MissingPlayerCounts)
    else Success(Assemble(date, location, gm, players.value, title))
  }

  /** The record `parse_entry` builds once both player numbers are known:
      the game-master numbers come together or not at all, and the open
      seats are the limit minus the signed-in players. */
  function Assemble(date: Option<Date>, location: Option<string>, gm: Option<(nat, nat)>,
                    players: (nat, nat), title: string): (s: Session)
    requires date.Some? ==> ValidDate(date.value)
    requires location.Some? ==> ',' !in location.value
    requires Unpadded(title, Whitespace)
    ensures WellFormed(s)
    ensures s.date == date && s.location == location && s.title == title
    ensures s.playerSignedIn == Some(players.0) && s.playerLimit == Some(players.1)
    ensures s.dmSignedIn.Some? <==> gm.Some?
    ensures gm.Some? ==> s.dmSignedIn == Some(gm.value.0) && s.dmLimit == Some(gm.value.1)
  {
    Session(
      date,
      location,
      if gm.Some? then Some(gm.value.1) else None,
      Some(players.1),
      if gm.Some? then Some(gm.value.0) else None,
      Some(players.0),
      title,
      players.1 - players.0)
  }

  /** With the player counts found, parsing succeeds: the session carries
      them and the game-master counts (if any), and its open seats are the
      player limit minus the signed-in players. */
  lemma ParsedCounts(e: RawEntry, clock: Clock, unescape: string -> string)
    ensures var players := ExtractCounts(e.content.GetOr(""), unescape, PlayersWord());
            var gm := ExtractCounts(e.content.GetOr(""), unescape, GmWord());
            players.Some? ==>
              && ParseEntry(e, clock, unescape).Success?
              && var s := ParseEntry(e, clock, unescape).value;
              && s.playerSignedIn == Some(players.value.0) && s.playerLimit == Some(players.value.1)
              && s.openSeats == players.value.1 - players.value.0
              && (gm.Some? ==> s.dmSignedIn == Some(gm.value.0) && s.dmLimit == Some(gm.value.1))
              && (gm.None? ==> s.dmSignedIn.None? && s.dmLimit.None?)
  {
    var r := ParseEntry(e, clock, unescape);
    if r.Success? {
      var s := r.value;
      var gm := ExtractCounts(e.content.GetOr(""), unescape, GmWord());
      if gm.Some? {
        assert Some((s.dmSignedIn.value, s.dmLimit.value)) == gm;
      }
    }
  }

  /** Parsing fails exactly when the content is empty or has no
      `<digits>/<digits> players` count anywhere. */
  lemma ParseEntryFailsWithoutPlayers(e: RawEntry, clock: Clock, unescape: string -> string)
    ensures ParseEntry(e, clock, unescape).Failure? <==>
              e.content.GetOr("") == [] ||
              forall m: CountsMatch :: !CountsAt(unescape(e.content.GetOr("")), "players", m)
  {
    var players := ExtractCounts(e.content.GetOr(""), unescape, "players");
    assert ParseEntry(e, clock, unescape).Failure? <==> players.None?;
  }
}
