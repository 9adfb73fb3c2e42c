/** Worked examples: concrete feed fields and what the model makes of them. */
module Scenarios {
  import opened Wrappers
  import opened Text
  import opened Calendar
  import opened Scan
  import opened Entry
  import opened Report

  /** A weekday token at the very start is the one `re.search` finds. */
  lemma LeadingToken(s: string, m: DateMatch)
    requires m.pos == 0 && DateTokenAt(s, m)
    ensures FindDateToken(s, 0) == Some(m)
  {
    FindDateTokenIsLeftmost(s, m);
  }

  /** A weekday token at the start of the content decides the date. */
  lemma LeadingDate(s: string, m: DateMatch, clock: Clock)
    requires m.pos == 0 && DateTokenAt(s, m)
    ensures ExtractDate(s, "", None, None, clock) == TokenDate(s, m, clock)
  {
    TokenDecides(s, "", None, None, clock, m);
  }

  lemma WedToken(s: string)
    requires s == "Wed 15/10"
    ensures DateTokenAt(s, DateMatch(0, 1, 2, 2))
  {
    assert s[0..3] == "Wed" && s[3] == ' ' && s[6] == '/';
  }

  lemma WedValues(s: string)
    requires s == "Wed 15/10" && DateTokenAt(s, DateMatch(0, 1, 2, 2))
    ensures TokenDay(s, DateMatch(0, 1, 2, 2)) == 15 && TokenMonth(s, DateMatch(0, 1, 2, 2)) == 10
  {
    assert s[4..6] == "15" && s[7..9] == "10";
    assert DigitsValue("15") == 15 by { assert "15"[..1] == "1"; }
    assert DigitsValue("10") == 10 by { assert "10"[..1] == "1"; }
  }

  /** `Wed 15/10` read in September keeps the year; read in November it
      moves to the next year. */
  lemma WeekdayTokenRollover()
    ensures ExtractDate("Wed 15/10", "", None, None, Clock(2025, 9)) == Some(Date(2025, 10, 15))
    ensures ExtractDate("Wed 15/10", "", None, None, Clock(2025, 11)) == Some(Date(2026, 10, 15))
  {
    var s := "Wed 15/10";
    WedToken(s);
    LeadingToken(s, DateMatch(0, 1, 2, 2));
    WedValues(s);
  }

  /** A weekday, one space, a two-digit day and a one-digit month that
      ends the text. */
  lemma OneDigitMonthToken(s: string)
    requires s == "Thu 31/4" || s == "Sat 29/2"
    ensures DateTokenAt(s, DateMatch(0, 1, 2, 1))
  {
    assert s[0..3] == "Thu" || s[0..3] == "Sat";
    assert s[3] == ' ' && s[6] == '/';
  }

  lemma ThuValues(s: string)
    requires s == "Thu 31/4" && DateTokenAt(s, DateMatch(0, 1, 2, 1))
    ensures TokenDay(s, DateMatch(0, 1, 2, 1)) == 31 && TokenMonth(s, DateMatch(0, 1, 2, 1)) == 4
  {
    assert s[4..6] == "31" && s[7..8] == "4";
    assert DigitsValue("31") == 31 by { assert "31"[..1] == "3"; }
    assert DigitsValue("4") == 4 by { assert "4"[..0] == ""; }
  }

  /** 31 April never exists, so the token gives no date, and the
      timestamp is not consulted either. */
  lemma ThirtyFirstOfApril()
    ensures ExtractDate("Thu 31/4", "", Some("2024-03-05"), None, Clock(2025, 1)) == None
  {
    var s := "Thu 31/4";
    OneDigitMonthToken(s);
    LeadingToken(s, DateMatch(0, 1, 2, 1));
    ThuValues(s);
  }

  lemma SatValues(s: string)
    requires s == "Sat 29/2" && DateTokenAt(s, DateMatch(0, 1, 2, 1))
    ensures TokenDay(s, DateMatch(0, 1, 2, 1)) == 29 && TokenMonth(s, DateMatch(0, 1, 2, 1)) == 2
  {
    assert s[4..6] == "29" && s[7..8] == "2";
    assert DigitsValue("29") == 29 by { assert "29"[..1] == "2"; }
    assert DigitsValue("2") == 2 by { assert "2"[..0] == ""; }
  }

  /** 29 February exists only in a leap year, and the rollover decides
      which year that is. */
  lemma LeapDay()
    ensures ExtractDate("Sat 29/2", "", None, None, Clock(2025, 1)) == None
    ensures ExtractDate("Sat 29/2", "", None, None, Clock(2027, 3)) == Some(Date(2028, 2, 29))
  {
    SatDate("Sat 29/2", Clock(2025, 1));
    SatDate("Sat 29/2", Clock(2027, 3));
    FebruaryTwentyNinth();
  }

  /** `Sat 29/2` names 29 February of the rollover year. */
  lemma SatDate(s: string, clock: Clock)
    requires s == "Sat 29/2"
    ensures ExtractDate(s, "", None, None, clock) == MakeDate(RolloverYear(2, clock), 2, 29)
  {
    var m := DateMatch(0, 1, 2, 1);
    OneDigitMonthToken(s);
    SatValues(s);
    LeadingDate(s, m, clock);
  }

  /** 2025 is a common year and 2028 a leap year. */
  lemma FebruaryTwentyNinth()
    ensures RolloverYear(2, Clock(2025, 1)) == 2025 && MakeDate(2025, 2, 29) == None
    ensures RolloverYear(2, Clock(2027, 3)) == 2028 && MakeDate(2028, 2, 29) == Some(Date(2028, 2, 29))
  {
  }

  /** Without a token, the first ten characters of `published` are read. */
  lemma PublishedTimestamp()
    ensures ExtractDate("", "", Some("2024-03-05T10:00:00Z"), None, Clock(2025, 1)) == Some(Date(2024, 3, 5))
  {
    var ds := "2024-03-05T10:00:00Z";
    assert FindDateToken("", 0) == None;
    PublishedShadowsUpdated("", "", ds, None, None, Clock(2025, 1));
    TimestampPrefix(ds);
  }

  lemma TimestampPrefix(ds: string)
    requires ds == "2024-03-05T10:00:00Z"
    ensures IsoPrefixDate(ds) == Some(Date(2024, 3, 5))
  {
    assert ds[..10] == "2024-03-05";
    IsoValue(ds[..10]);
  }

  lemma IsoValue(p: string)
    requires p == "2024-03-05"
    ensures ParseIsoDate(p) == Some(Date(2024, 3, 5))
  {
    assert p[0..4] == "2024" && p[5..7] == "03" && p[8..10] == "05";
    assert IsoShaped(p);
    assert DigitsValue("2024") == 2024 by {
      assert "2024"[..3] == "202" && "202"[..2] == "20" && "20"[..1] == "2";
    }
    assert DigitsValue("03") == 3 by { assert "03"[..1] == "0"; }
    assert DigitsValue("05") == 5 by { assert "05"[..1] == "0"; }
  }

  const Cafe := "Caf\U{e9} Centraal"

  lemma CafeUnpadded()
    ensures Unpadded(Cafe, Whitespace)
  {
  }

  lemma CafeWhere()
    ensures WhereLocation(CafeWhereHead + ", Utrecht") == VenuePrefix + " " + Cafe
  {
    var head := VenuePrefix + " " + Cafe;
    CafeHead();
    StripUnpadded(head, Whitespace);
    StripUnpadded(head, {'"'});
  }

  lemma CafeHead()
    ensures BeforeFirst(CafeWhereHead + ", Utrecht", ',') == VenuePrefix + " " + Cafe
  {
    var w := CafeWhereHead + ", Utrecht";
    assert w[..27] == VenuePrefix + " " + Cafe && w[27] == ',';
    BeforeFirstCharacterised(w, ',', 27);
  }

  /** The `gd:where` value as the feed spells it, up to its comma. */
  const CafeWhereHead := "Subcultures @ " + Cafe

  /** Whitespace inside the double quotes of `gd:where` survives: only
      whitespace outside them is stripped. */
  lemma SpaceInsideQuotes(where: string)
    requires where == "\" a \""
    ensures WhereLocation(where) == " a "
  {
    QuoteAndCommaNotSpace();
    assert where == "" + "\"" + " a " + "\"" + "" + "";
    WhereRoundTrip("", "\"", " a ", "\"", "", "");
  }

  /** A location under the `Subcultures @` umbrella is listed under the
      venue's own name. */
  lemma SubculturesVenue(where: string)
    requires where == "Subcultures @ Caf\U{e9} Centraal, Utrecht"
    ensures VenueName(Some(WhereLocation(where))) == "Caf\U{e9} Centraal"
  {
    CafeSpelling(where);
    CafeWhere();
    CafeVenue();
  }

  lemma CafeSpelling(where: string)
    requires where == "Subcultures @ Caf\U{e9} Centraal, Utrecht"
    ensures where == CafeWhereHead + ", Utrecht"
  {
  }

  lemma CafeVenue()
    ensures VenueName(Some(VenuePrefix + " " + Cafe)) == Cafe
  {
    CafeUnpadded();
    assert VenuePrefix + " " + Cafe == VenuePrefix + " " + Cafe + "";
    VenueRoundTrip(" ", Cafe, "");
  }

  lemma SessionGroupDropped()
    ensures StripAnnotations("(Session 4)") == []
  {
    assert "(Session 4)" == ['('] + "Session 4" + [CloserOf('(')] + "";
    StripAnnotationsDropsGroup('(', "Session 4", "");
  }

  lemma SpaceThenSessionGroup()
    ensures StripAnnotations(" " + "(Session 4)") == " "
  {
    SessionGroupDropped();
    StripAnnotationsKeepsPlainPrefix(" ", "(Session 4)");
  }

  lemma StrahdAnnotations()
    ensures StripAnnotations("[Tier 2]" + (" " + "(Session 4)")) == " "
  {
    var rest := " " + "(Session 4)";
    SpaceThenSessionGroup();
    TierGroup(rest);
    StripAnnotationsDropsGroup('[', "Tier 2", rest);
  }

  lemma TierGroup(rest: string)
    ensures "[Tier 2]" + rest == ['['] + "Tier 2" + [CloserOf('[')] + rest
    ensures CloserOf('[') !in "Tier 2"
  {
  }

  lemma StrahdPlain()
    ensures OutOfClass("Curse of Strahd ", 0, |"Curse of Strahd "|, Openers)
  {
  }

  lemma StrahdStripped()
    ensures StripAnnotations("Curse of Strahd " + ("[Tier 2]" + (" " + "(Session 4)"))) == "Curse of Strahd" + "  "
  {
    StrahdAnnotations();
    StrahdPlain();
    StripAnnotationsKeepsPlainPrefix("Curse of Strahd ", "[Tier 2]" + (" " + "(Session 4)"));
    assert "Curse of Strahd " + " " == "Curse of Strahd" + "  ";
  }

  lemma StrahdTrim()
    ensures Trim("Curse of Strahd" + "  ") == "Curse of Strahd"
  {
    var stripped := "Curse of Strahd" + "  ";
    assert stripped[0..15] == "Curse of Strahd";
    assert InClass(stripped, 15, 17, Whitespace);
    StripCharacterised(stripped, Whitespace, 0, 15);
  }

  /** Bracketed and parenthesised annotations are dropped from titles. */
  lemma TitleAnnotationsDropped()
    ensures CleanTitle("Curse of Strahd " + ("[Tier 2]" + (" " + "(Session 4)"))) == "Curse of Strahd"
  {
    StrahdStripped();
    StrahdTrim();
  }

  /** One seat is "seat left"; any other count is "seats left". */
  lemma Pluralisation()
    ensures SeatsLabel(1) == "seat left" && SeatsLabel(2) == "seats left" && SeatsLabel(0) == "seats left"
  {
  }

  /** The content of a session with both counts. */
  const Counts := "3/6 GM 10/12 players"

  /** Class membership of the characters the count scenarios use. */
  lemma CountChars()
    ensures ' ' in Whitespace && ' ' !in Digits && '/' !in Digits
    ensures 'G' !in Whitespace && 'M' !in Whitespace && 'p' !in Whitespace
    ensures '0' in Digits && '1' in Digits && '2' in Digits && '3' in Digits
    ensures '5' in Digits && '6' in Digits
  {
  }

  lemma CountsLayout()
    ensures Counts[0] == '3' && Counts[1] == '/' && Counts[2] == '6' && Counts[3] == ' '
    ensures Counts[4] == 'G' && Counts[5] == 'M' && Counts[6] == ' '
    ensures Counts[7] == '1' && Counts[8] == '0' && Counts[9] == '/'
    ensures Counts[10] == '1' && Counts[11] == '2' && Counts[12] == ' '
    ensures Counts[4..6] == "GM" && Counts[13..20] == "players" && |Counts| == 20
  {
    CountChars();
  }

  lemma GameMasterMatch(c: string)
    requires c == Counts
    ensures FindCounts(c, "GM", 0) == Some(CountsMatch(0, 1, 1, 1))
  {
    GameMasterValues();
    CountWords();
    FindCountsIsLeftmost(c, "GM", CountsMatch(0, 1, 1, 1));
  }

  lemma GameMasterValues()
    ensures CountsAt(Counts, "GM", CountsMatch(0, 1, 1, 1))
    ensures CountsValues(Counts, "GM", CountsMatch(0, 1, 1, 1)) == (3, 6)
  {
    CountsLayout();
    assert Counts[0..1] == "3" && Counts[2..3] == "6";
    assert DigitsValue("3") == 3 by { assert "3"[..0] == ""; }
    assert DigitsValue("6") == 6 by { assert "6"[..0] == ""; }
  }

  /** Every `players` count in the content ends at the `12` before the
      word, so none starts before position 7. */
  lemma PlayerCountsShape(m: CountsMatch)
    requires CountsAt(Counts, "players", m)
    ensures m.pos >= 7
  {
    CountsLayout();
    CountChars();
    var e := m.WordStart();
    assert Counts[e] == 'p' by { assert Counts[e..e + 7][0] == Counts[e]; }
    assert e == 13;
    assert '2' !in Whitespace by { ClassesApart('2'); }
    assert m.LimitEnd() == 12;
    assert m.Slash() == 9;
  }

  /** No counts for `players` start before position 7. */
  lemma NoPlayerCountsBefore7()
    ensures forall m: CountsMatch | m.pos < 7 :: !CountsAt(Counts, "players", m)
  {
    forall m: CountsMatch | CountsAt(Counts, "players", m) ensures m.pos >= 7 {
      PlayerCountsShape(m);
    }
  }

  lemma PlayerMatch(c: string)
    requires c == Counts
    ensures FindCounts(c, "players", 0) == Some(CountsMatch(7, 2, 2, 1))
  {
    CountsLayout();
    NoPlayerCountsBefore7();
    FindCountsIsLeftmost(c, "players", CountsMatch(7, 2, 2, 1));
  }

  lemma PlayerValues()
    ensures CountsAt(Counts, "players", CountsMatch(7, 2, 2, 1))
    ensures CountsValues(Counts, "players", CountsMatch(7, 2, 2, 1)) == (10, 12)
  {
    CountsLayout();
    assert Counts[7..9] == "10" && Counts[10..12] == "12";
    assert DigitsValue("10") == 10 by { assert "10"[..1] == "1"; }
    assert DigitsValue("12") == 12 by { assert "12"[..1] == "1"; }
  }

  /** `3/6 GM` and `10/12 players` give three of six game-master slots,
      ten of twelve player seats, and two open seats. */
  lemma TwoOpenSeats(e: RawEntry, clock: Clock)
    requires e.content == Some(Counts)
    ensures ParseEntry(e, clock, (s: string) => s).Success?
    ensures var r := ParseEntry(e, clock, (s: string) => s).value;
            && r.dmSignedIn == Some(3) && r.dmLimit == Some(6)
            && r.playerSignedIn == Some(10) && r.playerLimit == Some(12)
            && r.openSeats == 2
  {
    CountsExtracted(e.content.value);
    ParsedCounts(e, clock, (s: string) => s);
  }

  /** Both counts of the schedule text, as `parse_entry` extracts them. */
  lemma CountsExtracted(c: string)
    requires c == Counts
    ensures ExtractCounts(c, (s: string) => s, GmWord()) == Some((3, 6))
    ensures ExtractCounts(c, (s: string) => s, PlayersWord()) == Some((10, 12))
  {
    GameMasterMatch(c);
    GameMasterValues();
    PlayerMatch(c);
    PlayerValues();
  }

  /** The content of an overbooked session. */
  const Overbooked := "5/3 players"

  lemma OverbookedLayout()
    ensures Overbooked[0] == '5' && Overbooked[1] == '/' && Overbooked[2] == '3' && Overbooked[3] == ' '
    ensures Overbooked[4..11] == "players" && |Overbooked| == 11
    ensures Overbooked[0..1] == "5" && Overbooked[2..3] == "3"
  {
  }

  lemma OverbookedValues()
    ensures CountsAt(Overbooked, "players", CountsMatch(0, 1, 1, 1))
    ensures CountsValues(Overbooked, "players", CountsMatch(0, 1, 1, 1)) == (5, 3)
  {
    CountChars();
    OverbookedLayout();
    assert DigitsValue("5") == 5 by { assert "5"[..0] == ""; }
    assert DigitsValue("3") == 3 by { assert "3"[..0] == ""; }
  }

  lemma OverbookedMatch(c: string)
    requires c == Overbooked
    ensures FindCounts(c, "players", 0) == Some(CountsMatch(0, 1, 1, 1))
    ensures CountsValues(c, "players", CountsMatch(0, 1, 1, 1)) == (5, 3)
  {
    OverbookedValues();
    CountWords();
    FindCountsIsLeftmost(c, "players", CountsMatch(0, 1, 1, 1));
  }

  /** An overbooked session has a negative open-seat count; nothing clamps it. */
  lemma OverbookedSession(e: RawEntry, clock: Clock)
    requires e.content == Some(Overbooked)
    ensures ParseEntry(e, clock, (s: string) => s).Success?
    ensures ParseEntry(e, clock, (s: string) => s).value.openSeats == -2
  {
    OverbookedExtracted(e.content.value);
  }

  /** The overbooked counts, as `parse_entry` extracts them. */
  lemma OverbookedExtracted(c: string)
    requires c == Overbooked
    ensures ExtractCounts(c, (s: string) => s, PlayersWord()) == Some((5, 3))
  {
    OverbookedMatch(c);
  }
}
