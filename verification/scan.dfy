/** The three `re.search` patterns of the scraper, each as a declarative
    "the pattern matches here, with the regex engine's greedy choices"
    predicate, an operational matcher at one position, and a leftmost
    scanner. */
module Scan {
  import opened Wrappers
  import opened Text

  /** The weekday alternation `(Mon|Tue|Wed|Thu|Fri|Sat|Sun)`. */
  const Weekdays: set<string> := {"Mon", "Tue", "Wed", "Thu", "Fri", "Sat", "Sun"}

  lemma ClassesApart(c: char)
    ensures c in Digits ==> c !in Whitespace
    ensures c == '/' ==> c !in Digits && c !in Whitespace
  {
  }

  // ---------------------------------------------------------------------
  // (Mon|Tue|Wed|Thu|Fri|Sat|Sun)\s+(\d{1,2})/(\d{1,2})

  /** A weekday match at `pos`: `w` whitespace characters, a day of `dl`
      digits, a slash and a month of `ml` digits. */
  datatype DateMatch = DateMatch(pos: nat, w: nat, dl: nat, ml: nat) {
    function DayStart(): nat { pos + 3 + w }
    function MonthStart(): nat { pos + 3 + w + dl + 1 }
    function End(): nat { pos + 3 + w + dl + 1 + ml }
  }

  /** The weekday pattern matches at `i` with these lengths, and they are
      the ones the regex engine settles on: `\s+` and `\d{1,2}` are greedy,
      so a one-digit month is never followed by a further digit. */
  predicate DateTokenAt(s: string, m: DateMatch) {
    var p := m.DayStart();
    var q := m.MonthStart();
    var e := m.End();
    && e <= |s|
    && s[m.pos..m.pos + 3] in Weekdays
    && 1 <= m.w && InClass(s, m.pos + 3, p, Whitespace)
    && 1 <= m.dl <= 2 && InClass(s, p, p + m.dl, Digits) && s[p + m.dl] == '/'
    && 1 <= m.ml <= 2 && InClass(s, q, e, Digits)
    && (m.ml == 1 ==> e == |s| || s[e] !in Digits)
  }

  /** Every match at `i` has the lengths the character runs at `i` dictate. */
  lemma DateTokenForced(s: string, m: DateMatch)
    requires DateTokenAt(s, m)
    ensures RunIn(s, m.pos + 3, Whitespace) == m.DayStart()
    ensures RunIn(s, m.DayStart(), Digits) == m.DayStart() + m.dl
    ensures var run := RunIn(s, m.MonthStart(), Digits) - m.MonthStart();
            run >= 1 && m.ml == (if run >= 2 then 2 else 1)
  {
    var p := m.DayStart();
    ClassesApart(s[p]);
    ClassesApart(s[p + m.dl]);
    RunInExact(s, m.pos + 3, p, Whitespace);
    RunInExact(s, p, p + m.dl, Digits);
  }

  /** The reading of the weekday pattern at `i` that the character runs
      dictate: the whitespace run, a day run of at most two digits followed
      by `/`, and a month of two digits when two are there. */
  function ReadDateToken(s: string, i: nat): Option<DateMatch>
    requires i <= |s|
  {
    if i + 3 > |s| || s[i..i + 3] !in Weekdays then None
    else
      var p := RunIn(s, i + 3, Whitespace);
      var dEnd := RunIn(s, p, Digits);
      if p == i + 3 || dEnd == p || dEnd > p + 2 || dEnd == |s| || s[dEnd] != '/' then None
      else
        var q := dEnd + 1;
        var mEnd := RunIn(s, q, Digits);
        if mEnd == q then None
        else Some(DateMatch(i, p - (i + 3), dEnd - p, if mEnd - q >= 2 then 2 else 1))
  }

  /** What the runs dictate is a match. */
  lemma ReadDateTokenSound(s: string, i: nat)
    requires i <= |s|
    ensures ReadDateToken(s, i).Some? ==> ReadDateToken(s, i).value.pos == i && DateTokenAt(s, ReadDateToken(s, i).value)
  {
  }

  /** Every match is what the runs dictate. */
  lemma ReadDateTokenComplete(s: string, m: DateMatch)
    requires DateTokenAt(s, m)
    ensures ReadDateToken(s, m.pos) == Some(m)
  {
    DateTokenForced(s, m);
    var p := m.DayStart();
    var dEnd := p + m.dl;
    assert m.pos + 3 <= |s| && s[m.pos..m.pos + 3] in Weekdays;
    assert RunIn(s, m.pos + 3, Whitespace) == p && p != m.pos + 3;
    assert RunIn(s, p, Digits) == dEnd && dEnd < |s| && s[dEnd] == '/';
    var q := dEnd + 1;
    var mEnd := RunIn(s, q, Digits);
    assert q == m.MonthStart() && mEnd != q && (if mEnd - q >= 2 then 2 else 1) == m.ml;
  }

  /** Whether, and how, the weekday pattern matches starting exactly at `i`. */
  function DateTokenMatchAt(s: string, i: nat): (r: Option<DateMatch>)
    requires i <= |s|
    ensures r.Some? ==> r.value.pos == i && DateTokenAt(s, r.value)
    ensures r.None? ==> forall m: DateMatch | m.pos == i :: !DateTokenAt(s, m)
  {
    ReadDateTokenSound(s, i);
    forall m: DateMatch | m.pos == i && DateTokenAt(s, m) ensures ReadDateToken(s, i) == Some(m) {
      ReadDateTokenComplete(s, m);
    }
    ReadDateToken(s, i)
  }

  /** `re.search` for the weekday pattern from position `from` on: the
      leftmost match, or none when no position matches. */
  function FindDateToken(s: string, from: nat): (r: Option<DateMatch>)
    requires from <= |s|
    ensures r.Some? ==> from <= r.value.pos && DateTokenAt(s, r.value)
    ensures r.Some? ==> forall m: DateMatch | from <= m.pos < r.value.pos :: !DateTokenAt(s, m)
    ensures r.None? ==> forall m: DateMatch | from <= m.pos :: !DateTokenAt(s, m)
    decreases |s| - from
  {
    match DateTokenMatchAt(s, from)
    case Some(m) => Some(m)
    case None => if from == |s| then None else FindDateToken(s, from + 1)
  }

  /** The match at a position is unique: the day and month a token denotes
      do not depend on how it is read. */
  lemma DateTokenUnique(s: string, m: DateMatch, m': DateMatch)
    requires DateTokenAt(s, m) && DateTokenAt(s, m') && m.pos == m'.pos
    ensures m == m'
  {
    DateTokenForced(s, m);
    DateTokenForced(s, m');
  }

  /** `re.search` returns the leftmost match and nothing else: a match with
      none before it is the scanner's answer. */
  lemma FindDateTokenIsLeftmost(s: string, m: DateMatch)
    requires DateTokenAt(s, m)
    requires forall m': DateMatch | m'.pos < m.pos :: !DateTokenAt(s, m')
    ensures FindDateToken(s, 0) == Some(m)
  {
    var r := FindDateToken(s, 0);
    DateTokenUnique(s, r.value, m);
  }

  /** The integer in `s[i..j]` (Python's `int(match.group(k))`). */
  function NumberIn(s: string, i: nat, j: nat): (v: nat)
    requires InClass(s, i, j, Digits)
    ensures v < Pow10(j - i)
  {
    SliceInClass(s, i, j, Digits);
    DigitsValue(s[i..j])
  }

  /** `int(group(2))`: the day of a weekday token. */
  function TokenDay(s: string, m: DateMatch): (d: nat)
    requires DateTokenAt(s, m)
    ensures d < 100
  {
    NumberIn(s, m.DayStart(), m.DayStart() + m.dl)
  }

  /** `int(group(3))`: the month of a weekday token. */
  function TokenMonth(s: string, m: DateMatch): (d: nat)
    requires DateTokenAt(s, m)
    ensures d < 100
  {
    NumberIn(s, m.MonthStart(), m.End())
  }

  // ---------------------------------------------------------------------
  // (\d+)/(\d+)\s*GM   and   (\d+)/(\d+)\s*players

  /** The literal word after the counts; it must start with a character that
      is neither a digit nor whitespace, as `GM` and `players` do. */
  predicate IsCountWord(word: string) {
    |word| > 0 && word[0] !in Digits && word[0] !in Whitespace
  }

  /** A counts match at `pos`: `n1` digits, a slash, `n2` digits, `w`
      whitespace characters and then the word. */
  datatype CountsMatch = CountsMatch(pos: nat, n1: nat, n2: nat, w: nat) {
    function Slash(): nat { pos + n1 }
    function LimitStart(): nat { pos + n1 + 1 }
    function LimitEnd(): nat { pos + n1 + 1 + n2 }
    function WordStart(): nat { pos + n1 + 1 + n2 + w }
  }

  /** The counts pattern for `word` matches at `m.pos` with these lengths.
      Every such reading is the one the greedy engine picks, because the
      character after each run cannot continue it. */
  predicate CountsAt(s: string, word: string, m: CountsMatch) {
    var e := m.WordStart();
    && e + |word| <= |s|
    && 1 <= m.n1 && InClass(s, m.pos, m.Slash(), Digits) && s[m.Slash()] == '/'
    && 1 <= m.n2 && InClass(s, m.LimitStart(), m.LimitEnd(), Digits)
    && InClass(s, m.LimitEnd(), e, Whitespace)
    && s[e..e + |word|] == word
  }

  lemma CountsForced(s: string, word: string, m: CountsMatch)
    requires IsCountWord(word) && CountsAt(s, word, m)
    ensures RunIn(s, m.pos, Digits) == m.Slash()
    ensures RunIn(s, m.LimitStart(), Digits) == m.LimitEnd()
    ensures RunIn(s, m.LimitEnd(), Whitespace) == m.WordStart()
  {
    var e := m.WordStart();
    assert s[e] == word[0] by {
      assert s[e..e + |word|][0] == s[e];
    }
    ClassesApart(s[m.Slash()]);
    if m.w > 0 {
      ClassesApart(s[m.LimitEnd()]);
    }
    RunInExact(s, m.pos, m.Slash(), Digits);
    RunInExact(s, m.LimitStart(), m.LimitEnd(), Digits);
    RunInExact(s, m.LimitEnd(), e, Whitespace);
  }

  /** The reading of the counts pattern at `i` that the character runs
      dictate. */
  function ReadCounts(s: string, word: string, i: nat): Option<CountsMatch>
    requires i <= |s|
  {
    var a := RunIn(s, i, Digits);
    if a == i || a == |s| || s[a] != '/' then None
    else
      var b := RunIn(s, a + 1, Digits);
      var e := RunIn(s, b, Whitespace);
      if b == a + 1 || e + |word| > |s| || s[e..e + |word|] != word then None
      else Some(CountsMatch(i, a - i, b - (a + 1), e - b))
  }

  /** What the runs dictate is a match. */
  lemma ReadCountsSound(s: string, word: string, i: nat)
    requires i <= |s|
    ensures ReadCounts(s, word, i).Some? ==>
              ReadCounts(s, word, i).value.pos == i && CountsAt(s, word, ReadCounts(s, word, i).value)
  {
    if ReadCounts(s, word, i).Some? {
      var a := RunIn(s, i, Digits);
      var b := RunIn(s, a + 1, Digits);
      var e := RunIn(s, b, Whitespace);
      assert ReadCounts(s, word, i) == Some(CountsMatch(i, a - i, b - (a + 1), e - b));
      RunsMakeCounts(s, word, i, a, b, e);
    }
  }

  /** Digit, slash, digit and whitespace runs followed by the word form a
      counts match. */
  lemma RunsMakeCounts(s: string, word: string, i: nat, a: nat, b: nat, e: nat)
    requires i < a < |s| && InClass(s, i, a, Digits) && s[a] == '/'
    requires a + 1 < b && InClass(s, a + 1, b, Digits)
    requires InClass(s, b, e, Whitespace) && e + |word| <= |s| && s[e..e + |word|] == word
    ensures CountsAt(s, word, CountsMatch(i, a - i, b - (a + 1), e - b))
  {
  }

  /** Every match is what the runs dictate. */
  lemma ReadCountsComplete(s: string, word: string, m: CountsMatch)
    requires IsCountWord(word) && CountsAt(s, word, m)
    ensures ReadCounts(s, word, m.pos) == Some(m)
  {
    CountsForced(s, word, m);
  }

  /** Whether, and how, the counts pattern for `word` matches at `i`. */
  function CountsMatchAt(s: string, word: string, i: nat): (r: Option<CountsMatch>)
    requires IsCountWord(word) && i <= |s|
    ensures r.Some? ==> r.value.pos == i && CountsAt(s, word, r.value)
    ensures r.None? ==> forall m: CountsMatch | m.pos == i :: !CountsAt(s, word, m)
  {
    ReadCountsSound(s, word, i);
    forall m: CountsMatch | m.pos == i && CountsAt(s, word, m) ensures ReadCounts(s, word, i) == Some(m) {
      ReadCountsComplete(s, word, m);
    }
    ReadCounts(s, word, i)
  }

  /** `re.search` for the counts pattern from position `from` on. */
  function FindCounts(s: string, word: string, from: nat): (r: Option<CountsMatch>)
    requires IsCountWord(word) && from <= |s|
    ensures r.Some? ==> from <= r.value.pos && CountsAt(s, word, r.value)
    ensures r.Some? ==> forall m: CountsMatch | from <= m.pos < r.value.pos :: !CountsAt(s, word, m)
    ensures r.None? ==> forall m: CountsMatch | from <= m.pos :: !CountsAt(s, word, m)
    decreases |s| - from
  {
    match CountsMatchAt(s, word, from)
    case Some(m) => Some(m)
    case None => if from == |s| then None else FindCounts(s, word, from + 1)
  }

  lemma CountsUnique(s: string, word: string, m: CountsMatch, m': CountsMatch)
    requires IsCountWord(word) && CountsAt(s, word, m) && CountsAt(s, word, m') && m.pos == m'.pos
    ensures m == m'
  {
    CountsForced(s, word, m);
    CountsForced(s, word, m');
  }

  lemma FindCountsIsLeftmost(s: string, word: string, m: CountsMatch)
    requires IsCountWord(word) && CountsAt(s, word, m)
    requires forall m': CountsMatch | m'.pos < m.pos :: !CountsAt(s, word, m')
    ensures FindCounts(s, word, 0) == Some(m)
  {
    var r := FindCounts(s, word, 0);
    CountsUnique(s, word, r.value, m);
  }

  /** `(int(group(1)), int(group(2)))`: signed in, then the limit. */
  function CountsValues(s: string, word: string, m: CountsMatch): (r: (nat, nat))
    requires CountsAt(s, word, m)
    ensures r.0 < Pow10(m.n1) && r.1 < Pow10(m.n2)
  {
    (NumberIn(s, m.pos, m.Slash()), NumberIn(s, m.LimitStart(), m.LimitEnd()))
  }

  // ---------------------------------------------------------------------
  // at\s+([^<,]+)

  /** The characters `[^<,]` excludes. */
  const Delimiters: set<char> := {'<', ','}

  /** `at`, then `w` whitespace characters, then a character that can start
      the group: a reading of `at\s+` the rest of the pattern accepts. */
  predicate AtCandidate(s: string, i: nat, w: nat) {
    && i + 2 + w < |s|
    && s[i..i + 2] == "at"
    && 1 <= w && InClass(s, i + 2, i + 2 + w, Whitespace)
    && s[i + 2 + w] !in Delimiters
  }

  /** The reading the engine settles on: greedy `\s+` backs off only as far
      as the group needs, so `w` is the longest candidate. */
  predicate AtMatchAt(s: string, i: nat, w: nat) {
    AtCandidate(s, i, w) && forall w' | w < w' < |s| :: !AtCandidate(s, i, w')
  }

  /** Whether, and with how much whitespace, `at\s+([^<,]+)` matches at `i`. */
  function AtWidthAt(s: string, i: nat): (r: Option<nat>)
    requires i <= |s|
    ensures r.Some? ==> AtMatchAt(s, i, r.value)
    ensures r.None? ==> forall w :: !AtCandidate(s, i, w)
  {
    if i + 2 > |s| || s[i..i + 2] != "at" then None
    else
      var e := RunIn(s, i + 2, Whitespace);
      var run := e - (i + 2);
      if run == 0 then None
      else if e < |s| && s[e] !in Delimiters then Some(run)
      else if run >= 2 then Some(run - 1)
      else None
  }

  /** A match of `at\s+([^<,]+)`: the position of `at` and the whitespace width. */
  datatype AtMatch = AtMatch(pos: nat, w: nat) {
    function GroupStart(): nat { pos + 2 + w }
  }

  /** `re.search` for `at\s+([^<,]+)` from position `from` on. */
  function FindAt(s: string, from: nat): (r: Option<AtMatch>)
    requires from <= |s|
    ensures r.Some? ==> from <= r.value.pos && AtMatchAt(s, r.value.pos, r.value.w)
    ensures r.Some? ==> forall j, w | from <= j < r.value.pos :: !AtCandidate(s, j, w)
    ensures r.None? ==> forall j, w | from <= j :: !AtCandidate(s, j, w)
    decreases |s| - from
  {
    match AtWidthAt(s, from)
    case Some(w) => Some(AtMatch(from, w))
    case None => if from == |s| then None else FindAt(s, from + 1)
  }

  /** The whitespace width the engine settles on at a position is unique. */
  lemma AtMatchUnique(s: string, i: nat, w: nat, w': nat)
    requires AtMatchAt(s, i, w) && AtMatchAt(s, i, w')
    ensures w == w'
  {
    assert AtCandidate(s, i, w) && AtCandidate(s, i, w');
  }

  /** Any reading with no candidate before it is exactly what the search
      returns. */
  lemma FindAtIsLeftmost(s: string, m: AtMatch)
    requires AtMatchAt(s, m.pos, m.w)
    requires forall j: nat, w: nat | j < m.pos :: !AtCandidate(s, j, w)
    ensures FindAt(s, 0) == Some(m)
  {
    var r := FindAt(s, 0);
    assert r.Some? by { assert AtCandidate(s, m.pos, m.w); }
    assert r.value.pos == m.pos by {
      assert AtCandidate(s, r.value.pos, r.value.w);
    }
    AtMatchUnique(s, m.pos, r.value.w, m.w);
  }

  /** `group(1)`: the greedy `[^<,]+` run after the whitespace. */
  function AtGroup(s: string, m: AtMatch): (g: string)
    requires AtMatchAt(s, m.pos, m.w)
    ensures |g| >= 1 && OutOfClass(g, 0, |g|, Delimiters)
    ensures m.GroupStart() + |g| <= |s| && g == s[m.GroupStart()..m.GroupStart() + |g|]
    ensures m.GroupStart() + |g| == |s| || s[m.GroupStart() + |g|] in Delimiters
    ensures IsInfix(g, s)
  {
    var g0 := m.GroupStart();
    var g1 := RunNotIn(s, g0, Delimiters);
    assert forall k | 0 <= k < g1 - g0 :: s[g0..g1][k] == s[g0 + k];
    s[g0..g1]
  }
}
