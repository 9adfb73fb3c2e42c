/** The decision part of `main`: which date is reported, which sessions are
    listed, under which venue headings, in which order, and how titles and
    seat counts are rendered. */
module Report {
  import opened Wrappers
  import opened Text
  import opened Calendar
  import opened Entry

  // ---------------------------------------------------------------------
  // Sequences

  /** The elements of `xs` that satisfy `p`, in their original order. */
  function Filter<T(!new)>(xs: seq<T>, p: T -> bool): (r: seq<T>)
    ensures |r| <= |xs|
    ensures forall x :: x in r <==> x in xs && p(x)
  {
    if xs == [] then []
    else if p(xs[0]) then [xs[0]] + Filter(xs[1..], p)
    else Filter(xs[1..], p)
  }

  /** Filtering keeps order: it distributes over concatenation. */
  lemma {:induction false} FilterAppend<T(!new)>(a: seq<T>, b: seq<T>, p: T -> bool)
    ensures Filter(a + b, p) == Filter(a, p) + Filter(b, p)
  {
    if a != [] {
      assert (a + b)[0] == a[0];
      assert (a + b)[1..] == a[1..] + b;
      FilterAppend(a[1..], b, p);
      if p(a[0]) {
        assert Filter(a + b, p) == [a[0]] + (Filter(a[1..], p) + Filter(b, p));
      }
    } else {
      assert a + b == b;
    }
  }

  /** Filtering by `p` and then by `q` keeps what one filter by both keeps,
      in the same order. */
  lemma {:induction false} FilterFilter<T(!new)>(xs: seq<T>, p: T -> bool, q: T -> bool, pq: T -> bool)
    requires forall x :: pq(x) == (p(x) && q(x))
    ensures Filter(Filter(xs, p), q) == Filter(xs, pq)
  {
    if xs != [] {
      FilterFilter(xs[1..], p, q, pq);
      if p(xs[0]) {
        var f := Filter(xs, p);
        assert f[0] == xs[0] && f[1..] == Filter(xs[1..], p);
      }
    }
  }

  // ---------------------------------------------------------------------
  // Choosing the date

  /** The dates of the dated sessions: the keys of `entries_by_date`, with
      one occurrence per session. */
  function SessionDates(sessions: seq<Session>): (ds: seq<Date>)
    ensures forall d :: d in ds <==> exists s :: s in sessions && s.date == Some(d)
  {
    if sessions == [] then []
    else
      var rest := SessionDates(sessions[1..]);
      assert forall s :: s in sessions <==> s == sessions[0] || s in sessions[1..];
      if sessions[0].date.Some? then [sessions[0].date.value] + rest else rest
  }

  /** `d` is the least of the dates in `ds` that are not before `today`. */
  predicate IsEarliestUpcoming(d: Date, ds: seq<Date>, today: Date) {
    && d in ds
    && NotAfter(today, d)
    && forall e | e in ds && NotAfter(today, e) :: NotAfter(d, e)
  }

  /** The first date with entries, today included, or none when every
      date lies in the past. */
  function EarliestUpcoming(ds: seq<Date>, today: Date): (r: Option<Date>)
    ensures r.Some? ==> IsEarliestUpcoming(r.value, ds, today)
    ensures r.None? <==> forall e | e in ds :: Before(e, today)
  {
    if ds == [] then None
    else
      var rest := EarliestUpcoming(ds[1..], today);
      assert forall e :: e in ds <==> e == ds[0] || e in ds[1..];
      if Before(ds[0], today) then rest
      else match rest
        case None => Some(ds[0])
        case Some(e) => if NotAfter(ds[0], e) then Some(ds[0]) else Some(e)
  }

  /** There is at most one earliest upcoming date. */
  lemma EarliestUpcomingUnique(d1: Date, d2: Date, ds: seq<Date>, today: Date)
    requires IsEarliestUpcoming(d1, ds, today) && IsEarliestUpcoming(d2, ds, today)
    ensures d1 == d2
  {
    assert NotAfter(d1, d2) && NotAfter(d2, d1);
  }

  /** Dates in strictly increasing order, as `sorted` leaves the keys. */
  predicate Ascending(ds: seq<Date>) {
    forall i, j | 0 <= i < j < |ds| :: Before(ds[i], ds[j])
  }

  /** The loop over `sorted_dates` that stops at the first date `>= today`. */
  function FirstAtOrAfter(sorted: seq<Date>, today: Date): (r: Option<Date>)
    ensures r.Some? ==> exists k | 0 <= k < |sorted| ::
              && sorted[k] == r.value && NotAfter(today, sorted[k])
              && forall j | 0 <= j < k :: Before(sorted[j], today)
    ensures r.None? ==> forall e | e in sorted :: Before(e, today)
  {
    if sorted == [] then None
    else if NotAfter(today, sorted[0]) then Some(sorted[0])
    else FirstAtOrAfter(sorted[1..], today)
  }

  lemma {:induction false} FirstAtOrAfterIsEarliest(sorted: seq<Date>, today: Date)
    requires Ascending(sorted)
    ensures FirstAtOrAfter(sorted, today).Some? ==>
              IsEarliestUpcoming(FirstAtOrAfter(sorted, today).value, sorted, today)
    ensures FirstAtOrAfter(sorted, today).None? <==> forall e | e in sorted :: Before(e, today)
  {
    if sorted != [] {
      assert forall e :: e in sorted <==> e == sorted[0] || e in sorted[1..];
      assert Ascending(sorted[1..]);
      FirstAtOrAfterIsEarliest(sorted[1..], today);
      if NotAfter(today, sorted[0]) {
        forall e | e in sorted ensures NotAfter(sorted[0], e) {
          var j :| 0 <= j < |sorted| && sorted[j] == e;
        }
      }
    }
  }

  /** Scanning the sorted keys for the first date not before today, as the
      source does, finds exactly the earliest upcoming date. */
  lemma SortedScanFindsEarliest(sorted: seq<Date>, ds: seq<Date>, today: Date)
    requires Ascending(sorted)
    requires forall d :: d in sorted <==> d in ds
    ensures FirstAtOrAfter(sorted, today) == EarliestUpcoming(ds, today)
  {
    FirstAtOrAfterIsEarliest(sorted, today);
    var a := FirstAtOrAfter(sorted, today);
    var b := EarliestUpcoming(ds, today);
    if a.Some? && b.Some? {
      EarliestUpcomingUnique(a.value, b.value, ds, today);
    }
  }

  // ---------------------------------------------------------------------
  // Venues

  /** The venue-name prefix that is dropped from locations. */
  const VenuePrefix := "Subcultures @"

  /** The heading a session is listed under: its location (empty when
      missing) with a leading `Subcultures @` removed and the rest stripped. */
  function VenueName(location: Option<string>): (v: string)
    ensures !StartsWith(location.GetOr(""), VenuePrefix) ==> v == location.GetOr("")
    ensures StartsWith(location.GetOr(""), VenuePrefix) ==>
              Unpadded(v, Whitespace) && |v| < |location.GetOr("")| && IsInfix(v, location.GetOr(""))
  {
    var l := location.GetOr("");
    if StartsWith(l, VenuePrefix) then
      var rest := l[|VenuePrefix|..];
      assert rest == l[|VenuePrefix|..|l|];
      StripIsInfix(rest, Whitespace);
      InfixTransitive(Trim(rest), rest, l);
      Trim(rest)
    else l
  }

  /** A venue written after the prefix, however it is spaced, is read back. */
  lemma VenueRoundTrip(pad: string, name: string, tail: string)
    requires InClass(pad, 0, |pad|, Whitespace) && InClass(tail, 0, |tail|, Whitespace)
    requires Unpadded(name, Whitespace)
    ensures VenueName(Some(VenuePrefix + pad + name + tail)) == name
  {
    var l := VenuePrefix + pad + name + tail;
    assert l[..|VenuePrefix|] == VenuePrefix;
    var rest := l[|VenuePrefix|..];
    assert rest == pad + name + tail;
    assert rest[|pad|..|pad| + |name|] == name;
    StripCharacterised(rest, Whitespace, |pad|, |pad| + |name|);
  }

  /** Distinct venue names in strictly increasing order. */
  predicate AscendingNames(vs: seq<string>) {
    forall i, j | 0 <= i < j < |vs| :: Below(vs[i], vs[j])
  }

  lemma PrependAscending(v: string, vs: seq<string>)
    requires AscendingNames(vs)
    requires vs == [] || Below(v, vs[0])
    ensures AscendingNames([v] + vs)
  {
    forall i, j | 0 <= i < j < |[v] + vs| ensures Below(([v] + vs)[i], ([v] + vs)[j]) {
      if i == 0 && j > 1 {
        BelowTransitive(v, vs[0], vs[j - 1]);
      }
    }
  }

  /** `v` added to an ascending list of names, unless already there. */
  function InsertName(v: string, vs: seq<string>): (r: seq<string>)
    requires AscendingNames(vs)
    ensures AscendingNames(r)
    ensures forall x :: x in r <==> x == v || x in vs
  {
    if vs == [] then [v]
    else if v == vs[0] then vs
    else if Below(v, vs[0]) then
      PrependAscending(v, vs);
      [v] + vs
    else
      BelowTotal(v, vs[0]);
      assert AscendingNames(vs[1..]);
      var tail := InsertName(v, vs[1..]);
      assert forall x :: x in vs <==> x == vs[0] || x in vs[1..];
      assert Below(vs[0], tail[0]);
      PrependAscending(vs[0], tail);
      [vs[0]] + tail
  }

  /** `sorted(set(vs))`: each name once, in ascending order. */
  function SortedNames(vs: seq<string>): (r: seq<string>)
    ensures AscendingNames(r)
    ensures forall x :: x in r <==> x in vs
  {
    if vs == [] then []
    else
      assert forall x :: x in vs <==> x == vs[0] || x in vs[1..];
      InsertName(vs[0], SortedNames(vs[1..]))
  }

  /** The head of an ascending list comes before every later element, so
      no later element equals it. */
  lemma AscendingHead(a: seq<string>)
    requires AscendingNames(a) && a != []
    ensures forall x | x in a[1..] :: Below(a[0], x) && x != a[0]
  {
    forall x | x in a[1..] ensures Below(a[0], x) && x != a[0] {
      var i :| 0 <= i < |a[1..]| && a[1..][i] == x;
      assert a[i + 1] == x;
      BelowIrreflexive(a[0]);
    }
  }

  /** An ascending list is determined by its elements, so any sorting of
      the venue names gives the same headings in the same order. */
  lemma {:induction false} AscendingNamesUnique(a: seq<string>, b: seq<string>)
    requires AscendingNames(a) && AscendingNames(b)
    requires forall x :: x in a <==> x in b
    ensures a == b
  {
    assert a != [] ==> a[0] in b;
    assert b != [] ==> b[0] in a;
    if a != [] && b != [] {
      AscendingHead(a);
      AscendingHead(b);
      assert forall x :: x in a <==> x == a[0] || x in a[1..];
      assert forall x :: x in b <==> x == b[0] || x in b[1..];
      if a[0] != b[0] {
        assert Below(a[0], b[0]) by { assert b[0] in a[1..]; }
        assert Below(b[0], a[0]) by { assert a[0] in b[1..]; }
        BelowTransitive(a[0], b[0], a[0]);
        BelowIrreflexive(a[0]);
        assert false;
      }
      assert AscendingNames(a[1..]) && AscendingNames(b[1..]);
      AscendingNamesUnique(a[1..], b[1..]);
      assert a == [a[0]] + a[1..] && b == [b[0]] + b[1..];
    }
  }

  // ---------------------------------------------------------------------
  // Titles and seat counts

  /** The characters that open an annotation, and the one that closes each. */
  const Openers: set<char> := {'[', '(', '{'}

  function CloserOf(c: char): char
    requires c in Openers
  {
    if c == '[' then ']' else if c == '(' then ')' else '}'
  }

  /** No opener in `t` is followed, anywhere later, by its closer: no
      `[...]`, `(...)` or `{...}` group is left. */
  predicate NoAnnotation(t: string) {
    forall i, j | 0 <= i < j < |t| && t[i] in Openers :: t[j] != CloserOf(t[i])
  }

  /** `re.sub(r"\[[^\]]*\]|\([^\)]*\)|\{[^\}]*\}", "", t)`: scanning left to
      right, an opener whose closer appears later is removed together with
      everything up to the first such closer; every other character is kept. */
  function StripAnnotations(t: string): (r: string)
    ensures |r| <= |t|
    ensures forall c :: c in r ==> c in t
    ensures NoAnnotation(r)
    ensures OutOfClass(t, 0, |t|, Openers) ==> r == t
    decreases |t|
  {
    if t == [] then []
    else if t[0] in Openers && RunNotIn(t, 1, {CloserOf(t[0])}) < |t| then
      StripAnnotations(t[RunNotIn(t, 1, {CloserOf(t[0])}) + 1..])
    else
      var rest := StripAnnotations(t[1..]);
      assert t[0] in Openers ==> CloserOf(t[0]) !in rest by {
        if t[0] in Openers {
          assert OutOfClass(t, 1, |t|, {CloserOf(t[0])});
          assert CloserOf(t[0]) !in t[1..];
        }
      }
      var r := [t[0]] + rest;
      assert forall j | 1 <= j < |r| :: r[j] == rest[j - 1];
      assert OutOfClass(t, 0, |t|, Openers) ==> OutOfClass(t[1..], 0, |t| - 1, Openers);
      r
  }

  /** A string with no complete annotation is left as it is, so stripping
      annotations is idempotent. */
  lemma {:induction false} StripAnnotationsFixed(t: string)
    requires NoAnnotation(t)
    ensures StripAnnotations(t) == t
  {
    if t != [] {
      if t[0] in Openers {
        var j := RunNotIn(t, 1, {CloserOf(t[0])});
        assert j == |t|;
      }
      assert NoAnnotation(t[1..]) by {
        forall i, j | 0 <= i < j < |t[1..]| && t[1..][i] in Openers ensures t[1..][j] != CloserOf(t[1..][i]) {
          assert t[1..][i] == t[i + 1] && t[1..][j] == t[j + 1];
        }
      }
      StripAnnotationsFixed(t[1..]);
      assert t == [t[0]] + t[1..];
    }
  }

  /** An opener with no closer anywhere after it is kept, and stripping goes
      on after it. */
  lemma KeepsUnmatchedOpener(o: char, b: string)
    requires o in Openers && CloserOf(o) !in b
    ensures StripAnnotations([o] + b) == [o] + StripAnnotations(b)
  {
    var t := [o] + b;
    assert t[1..] == b;
    assert RunNotIn(t, 1, {CloserOf(o)}) == |t| by {
      assert OutOfClass(t, 1, |t|, {CloserOf(o)}) by {
        forall k | 1 <= k < |t| ensures t[k] !in {CloserOf(o)} {
          assert t[k] == b[k - 1];
        }
      }
    }
  }

  /** A title that does not start with an opener keeps its first character. */
  lemma StripAnnotationsPlainHead(t: string)
    requires t != [] && t[0] !in Openers
    ensures StripAnnotations(t) == [t[0]] + StripAnnotations(t[1..])
  {
  }

  /** Text before the first opener is kept as it is. */
  lemma {:induction false} StripAnnotationsKeepsPlainPrefix(a: string, b: string)
    requires OutOfClass(a, 0, |a|, Openers)
    ensures StripAnnotations(a + b) == a + StripAnnotations(b)
  {
    if a == [] {
      assert a + b == b;
    } else {
      var t := a + b;
      var tail := a[1..] + b;
      assert t != [] && t[0] == a[0] && t[0] !in Openers && t[1..] == tail;
      StripAnnotationsPlainHead(t);
      assert OutOfClass(a[1..], 0, |a| - 1, Openers);
      StripAnnotationsKeepsPlainPrefix(a[1..], b);
      PrependAppend(a, StripAnnotations(b));
    }
  }

  /** `a` is its head followed by its tail, also in front of more text. */
  lemma PrependAppend(a: string, c: string)
    requires a != []
    ensures [a[0]] + (a[1..] + c) == a + c
  {
    assert a == [a[0]] + a[1..];
  }

  /** An opener, a body without its closer, and the closer are removed as
      one group; scanning resumes after the closer. */
  lemma StripAnnotationsDropsGroup(o: char, body: string, b: string)
    requires o in Openers && CloserOf(o) !in body
    ensures StripAnnotations([o] + body + [CloserOf(o)] + b) == StripAnnotations(b)
  {
    var t := [o] + body + [CloserOf(o)] + b;
    var close := 1 + |body|;
    assert t[close] == CloserOf(o);
    assert OutOfClass(t, 1, close, {CloserOf(o)}) by {
      forall k | 1 <= k < close ensures t[k] !in {CloserOf(o)} {
        assert t[k] == body[k - 1];
      }
    }
    RunNotInExact(t, 1, close, {CloserOf(o)});
    assert t[close + 1..] == b;
  }

  /** A piece of a string without annotations has none either. */
  lemma InfixNoAnnotation(u: string, t: string)
    requires IsInfix(u, t) && NoAnnotation(t)
    ensures NoAnnotation(u)
  {
    var a: nat, b: nat :| a <= b <= |t| && u == t[a..b];
    forall i, j | 0 <= i < j < |u| && u[i] in Openers ensures u[j] != CloserOf(u[i]) {
      assert u[i] == t[a + i] && u[j] == t[a + j];
    }
  }

  /** The title as the report prints it. */
  function CleanTitle(t: string): (r: string)
    ensures |r| <= |t|
    ensures Unpadded(r, Whitespace) && NoAnnotation(r)
    ensures OutOfClass(t, 0, |t|, Openers) ==> r == Trim(t)
  {
    var stripped := StripAnnotations(t);
    StripIsInfix(stripped, Whitespace);
    InfixNoAnnotation(Trim(stripped), stripped);
    Trim(stripped)
  }

  /** A complete annotation after plain text is dropped from the printed
      title, and cleaning goes on after its closer. */
  lemma CleanTitleDropsGroup(pre: string, o: char, body: string, post: string)
    requires OutOfClass(pre, 0, |pre|, Openers)
    requires o in Openers && CloserOf(o) !in body
    ensures CleanTitle(pre + [o] + body + [CloserOf(o)] + post) == Trim(pre + StripAnnotations(post))
  {
    var g := [o] + body + [CloserOf(o)] + post;
    assert pre + [o] + body + [CloserOf(o)] + post == pre + g;
    StripAnnotationsKeepsPlainPrefix(pre, g);
    StripAnnotationsDropsGroup(o, body, post);
  }

  /** Cleaning a clean title changes nothing. */
  lemma CleanTitleIdempotent(t: string)
    ensures CleanTitle(CleanTitle(t)) == CleanTitle(t)
  {
    var c := CleanTitle(t);
    StripAnnotationsFixed(c);
    StripUnpadded(c, Whitespace);
  }

  /** "seat left" for exactly one open seat, "seats left" otherwise
      (zero and negative counts included). */
  function SeatsLabel(n: int): (suffix: string)
    ensures suffix == "seat left" <==> n == 1
    ensures suffix == "seats left" <==> n != 1
  {
    if n == 1 then "seat left" else "seats left"
  }

  /** One bullet of the report. */
  datatype Line = Line(title: string, seats: int, suffix: string)

  function RenderSession(s: Session): (l: Line)
    ensures NoAnnotation(l.title) && l.seats == s.openSeats
    ensures l.title == CleanTitle(s.title)
    ensures l.suffix == SeatsLabel(s.openSeats)
  {
    Line(CleanTitle(s.title), s.openSeats, SeatsLabel(s.openSeats))
  }

  // ---------------------------------------------------------------------
  // Grouping

  /** The sessions of one heading, in feed order. */
  datatype VenueGroup = VenueGroup(venue: string, sessions: seq<Session>)

  /** The bullets of one heading. */
  function Lines(g: VenueGroup): (ls: seq<Line>)
    ensures |ls| == |g.sessions|
    ensures forall i | 0 <= i < |ls| :: ls[i] == RenderSession(g.sessions[i])
  {
    seq(|g.sessions|, i requires 0 <= i < |g.sessions| => RenderSession(g.sessions[i]))
  }

  function VenueOf(s: Session): string {
    VenueName(s.location)
  }

  function Venues(sessions: seq<Session>): (vs: seq<string>)
    ensures forall v :: v in vs <==> exists s :: s in sessions && VenueOf(s) == v
  {
    if sessions == [] then []
    else
      assert forall s :: s in sessions <==> s == sessions[0] || s in sessions[1..];
      [VenueOf(sessions[0])] + Venues(sessions[1..])
  }

  /** Venue headings in strictly ascending order, so each appears once. */
  predicate AscendingVenues(groups: seq<VenueGroup>) {
    forall i, j | 0 <= i < j < |groups| :: Below(groups[i].venue, groups[j].venue)
  }

  /** One group per name, in the order of the names. */
  function GroupsFor(names: seq<string>, sessions: seq<Session>): (groups: seq<VenueGroup>)
    ensures |groups| == |names|
    ensures forall i | 0 <= i < |names| ::
              groups[i] == VenueGroup(names[i], Filter(sessions, (s: Session) => VenueOf(s) == names[i]))
  {
    if names == [] then []
    else [VenueGroup(names[0], Filter(sessions, (s: Session) => VenueOf(s) == names[0]))] + GroupsFor(names[1..], sessions)
  }

  /** `grouped`, with its keys sorted: one group per venue name, in
      ascending order, each holding that venue's sessions in feed order. */
  function GroupByVenue(sessions: seq<Session>): (groups: seq<VenueGroup>)
    ensures AscendingVenues(groups)
    ensures forall g | g in groups :: g.sessions == Filter(sessions, (s: Session) => VenueOf(s) == g.venue)
    ensures forall g | g in groups :: g.sessions != []
    ensures forall s | s in sessions :: exists g :: g in groups && g.venue == VenueOf(s)
  {
    var names := SortedNames(Venues(sessions));
    var groups := GroupsFor(names, sessions);
    GroupByVenueFacts(sessions, names, groups);
    groups
  }

  lemma GroupByVenueFacts(sessions: seq<Session>, names: seq<string>, groups: seq<VenueGroup>)
    requires names == SortedNames(Venues(sessions)) && groups == GroupsFor(names, sessions)
    ensures AscendingVenues(groups)
    ensures forall g | g in groups :: g.sessions != []
    ensures forall s | s in sessions :: exists g :: g in groups && g.venue == VenueOf(s)
  {
    forall g | g in groups ensures g.sessions != [] {
      var i :| 0 <= i < |groups| && groups[i] == g;
      assert names[i] in Venues(sessions);
      var s :| s in sessions && VenueOf(s) == names[i];
      assert s in g.sessions;
    }
    forall s | s in sessions ensures exists g :: g in groups && g.venue == VenueOf(s) {
      assert VenueOf(s) in Venues(sessions);
      var i :| 0 <= i < |names| && names[i] == VenueOf(s);
      assert groups[i] in groups;
    }
  }

  /** Every session appears in exactly the group of its own venue. */
  lemma GroupMembership(sessions: seq<Session>, s: Session)
    ensures (exists g :: g in GroupByVenue(sessions) && s in g.sessions) <==> s in sessions
    ensures forall g | g in GroupByVenue(sessions) && s in g.sessions :: g.venue == VenueOf(s)
  {
    var groups := GroupByVenue(sessions);
    if s in sessions {
      var g :| g in groups && g.venue == VenueOf(s);
      assert s in g.sessions;
    }
  }

  /** One printed heading: the venue and the bullets under it. */
  datatype Heading = Heading(venue: string, bullets: seq<Line>)

  /** What the loop over `sorted(grouped.keys())` prints: each group's
      venue heading followed by its bullets. */
  function RenderDigest(groups: seq<VenueGroup>): (hs: seq<Heading>)
    ensures |hs| == |groups|
    ensures forall i | 0 <= i < |groups| :: hs[i].venue == groups[i].venue && hs[i].bullets == Lines(groups[i])
  {
    seq(|groups|, i requires 0 <= i < |groups| => Heading(groups[i].venue, Lines(groups[i])))
  }

  // ---------------------------------------------------------------------
  // The whole run

  /** What one run of `main` ends with: a crash while parsing, the
      "no entries" notice, or the digest for one date. */
  datatype Outcome =
    | Crashed(error: ParseError)
    | NoUpcoming
    | Digest(date: Date, groups: seq<VenueGroup>)

  /** `parse_entry` over the whole feed; the first failing entry ends the run. */
  function ParseAll(entries: seq<RawEntry>, clock: Clock, unescape: string -> string): (r: Result<seq<Session>, ParseError>)
    ensures r.Success? ==> |r.value| == |entries|
    ensures r.Success? ==> forall i | 0 <= i < |entries| :: ParseEntry(entries[i], clock, unescape) == Success(r.value[i])
    ensures r.Failure? <==> exists i | 0 <= i < |entries| :: ParseEntry(entries[i], clock, unescape).Failure?
  {
    if exists i | 0 <= i < |entries| :: ParseEntry(entries[i], clock, unescape).Failure? then
      Failure(MissingPlayerCounts)
    else
      Success(Parsed(entries, clock, unescape))
  }

  /** The sessions of a feed whose entries all parse. */
  function Parsed(entries: seq<RawEntry>, clock: Clock, unescape: string -> string): (ss: seq<Session>)
    requires forall i | 0 <= i < |entries| :: ParseEntry(entries[i], clock, unescape).Success?
    ensures |ss| == |entries|
    ensures forall i | 0 <= i < |entries| :: ParseEntry(entries[i], clock, unescape) == Success(ss[i])
  {
    Successes(entries, (e: RawEntry) => ParseEntry(e, clock, unescape))
  }

  /** The values of a mapping in which every element succeeds. */
  function Successes<A, B, E>(xs: seq<A>, f: A -> Result<B, E>): (ys: seq<B>)
    requires forall i | 0 <= i < |xs| :: f(xs[i]).Success?
    ensures |ys| == |xs|
    ensures forall i | 0 <= i < |xs| :: f(xs[i]) == Success(ys[i])
  {
    seq(|xs|, i requires 0 <= i < |xs| => f(xs[i]).value)
  }

  /** The sessions `main` lists for date `d`: those of that date whose open
      seat count is not zero (a negative count is listed). */
  function ListedOn(sessions: seq<Session>, d: Date): (r: seq<Session>)
    ensures forall s :: s in r <==> s in sessions && s.date == Some(d) && s.openSeats != 0
    ensures r == Filter(sessions, OpenOn(d))
  {
    FilterFilter(sessions, (s: Session) => s.date == Some(d), (s: Session) => s.openSeats != 0, OpenOn(d));
    Filter(Filter(sessions, (s: Session) => s.date == Some(d)), (s: Session) => s.openSeats != 0)
  }

  /** Whether a session is listed for date `d`. */
  function OpenOn(d: Date): Session -> bool {
    (s: Session) => s.date == Some(d) && s.openSeats != 0
  }

  /** Whether a session is listed for date `d` under venue `venue`. */
  function OpenOnAt(d: Date, venue: string): Session -> bool {
    (s: Session) => s.date == Some(d) && s.openSeats != 0 && VenueOf(s) == venue
  }

  /** What `main` decides once every entry is parsed: the "no entries"
      notice when no session date is today or later, otherwise the digest
      for the earliest such date. */
  function Decide(sessions: seq<Session>, today: Date): (o: Outcome)
    ensures !o.Crashed?
    ensures o.Digest? ==> NotAfter(today, o.date)
    ensures o.Digest? ==> forall g | g in o.groups :: forall s | s in g.sessions :: s.openSeats != 0 && s.date == Some(o.date)
  {
    match EarliestUpcoming(SessionDates(sessions), today)
    case None => NoUpcoming
    case Some(d) => Digest(d, GroupByVenue(ListedOn(sessions, d)))
  }

  /** The decision part of `main`, given the feed's entries, the local clock
      and today's UTC date. */
  function Run(entries: seq<RawEntry>, clock: Clock, today: Date, unescape: string -> string): (o: Outcome)
    ensures o.Digest? ==> NotAfter(today, o.date)
    ensures o.Digest? ==> forall g | g in o.groups :: forall s | s in g.sessions :: s.openSeats != 0 && s.date == Some(o.date)
  {
    match ParseAll(entries, clock, unescape)
    case Failure(e) => Crashed(e)
    case Success(sessions) => Decide(sessions, today)
  }

  /** The run crashes exactly when some entry lacks a player count. */
  lemma RunCrashesIffEntryFails(entries: seq<RawEntry>, clock: Clock, today: Date, unescape: string -> string)
    ensures Run(entries, clock, today, unescape).Crashed? <==>
              exists i | 0 <= i < |entries| :: ParseEntry(entries[i], clock, unescape).Failure?
  {
  }

  /** Every collected date is past exactly when every dated session is. */
  lemma AllDatesPast(sessions: seq<Session>, today: Date)
    ensures (forall e | e in SessionDates(sessions) :: Before(e, today)) <==>
            (forall s | s in sessions && s.date.Some? :: Before(s.date.value, today))
  {
    if forall s | s in sessions && s.date.Some? :: Before(s.date.value, today) {
      forall e | e in SessionDates(sessions) ensures Before(e, today) {
        var s :| s in sessions && s.date == Some(e);
      }
    }
  }

  /** The digest is for the earliest session date not before today, and
      there is no digest exactly when every session date is in the past
      (undated sessions never count). */
  lemma DecideChoosesEarliestUpcoming(sessions: seq<Session>, today: Date)
    ensures var o := Decide(sessions, today);
            && (o.NoUpcoming? <==> forall s | s in sessions && s.date.Some? :: Before(s.date.value, today))
            && (o.Digest? ==> IsEarliestUpcoming(o.date, SessionDates(sessions), today))
  {
    AllDatesPast(sessions, today);
  }

  /** When every entry parses, the run decides as above on the parsed sessions. */
  lemma RunChoosesEarliestUpcoming(entries: seq<RawEntry>, clock: Clock, today: Date, unescape: string -> string)
    requires ParseAll(entries, clock, unescape).Success?
    ensures var sessions := ParseAll(entries, clock, unescape).value;
            var o := Run(entries, clock, today, unescape);
            && (o.NoUpcoming? <==> forall s | s in sessions && s.date.Some? :: Before(s.date.value, today))
            && (o.Digest? ==> IsEarliestUpcoming(o.date, SessionDates(sessions), today))
  {
    var sessions := ParseAll(entries, clock, unescape).value;
    assert Run(entries, clock, today, unescape) == Decide(sessions, today);
    DecideChoosesEarliestUpcoming(sessions, today);
  }

  /** A session is in the digest exactly when it has the digest's date and
      a non-zero open seat count, and it is listed under its own venue. */
  lemma DecideListsExactlyOpenSessions(sessions: seq<Session>, today: Date, s: Session)
    requires Decide(sessions, today).Digest?
    ensures var o := Decide(sessions, today);
            (exists g :: g in o.groups && s in g.sessions) <==>
              (s in sessions && s.date == Some(o.date) && s.openSeats != 0)
    ensures var o := Decide(sessions, today);
            forall g | g in o.groups && s in g.sessions :: g.venue == VenueOf(s)
  {
    var o := Decide(sessions, today);
    var listed := ListedOn(sessions, o.date);
    assert o.groups == GroupByVenue(listed);
    GroupMembership(listed, s);
  }

  /** Each venue's bullets are its listed sessions in feed order, each as
      often as it occurs in the feed. */
  lemma DecideKeepsFeedOrder(sessions: seq<Session>, today: Date)
    requires Decide(sessions, today).Digest?
    ensures var o := Decide(sessions, today);
            forall g | g in o.groups :: g.sessions == Filter(sessions, OpenOnAt(o.date, g.venue))
  {
    var o := Decide(sessions, today);
    var listed := ListedOn(sessions, o.date);
    assert o.groups == GroupByVenue(listed);
    forall g | g in o.groups ensures g.sessions == Filter(sessions, OpenOnAt(o.date, g.venue)) {
      FilterFilter(sessions, OpenOn(o.date), (s: Session) => VenueOf(s) == g.venue, OpenOnAt(o.date, g.venue));
    }
  }

  /** The printed digest: headings in strictly ascending order, none without
      bullets, and every bullet showing a non-zero seat count, a title with no
      annotation and the matching "seat left" or "seats left". */
  lemma DigestPrintsOpenSeats(sessions: seq<Session>, today: Date)
    requires Decide(sessions, today).Digest?
    ensures var hs := RenderDigest(Decide(sessions, today).groups);
            forall i, j | 0 <= i < j < |hs| :: Below(hs[i].venue, hs[j].venue)
    ensures var hs := RenderDigest(Decide(sessions, today).groups);
            forall h | h in hs :: h.bullets != []
    ensures var hs := RenderDigest(Decide(sessions, today).groups);
            forall h, l | h in hs && l in h.bullets ::
              l.seats != 0 && NoAnnotation(l.title) && (l.suffix == "seat left" <==> l.seats == 1)
  {
    var o := Decide(sessions, today);
    var hs := RenderDigest(o.groups);
    forall h | h in hs
      ensures h.bullets != []
      ensures forall l | l in h.bullets ::
                l.seats != 0 && NoAnnotation(l.title) && (l.suffix == "seat left" <==> l.seats == 1)
    {
      var i :| 0 <= i < |hs| && hs[i] == h;
      assert o.groups[i] in o.groups;
      OpenBullets(o.groups[i]);
    }
  }

  /** The bullets of a group of sessions with open seats each show a
      non-zero count, a clean title and the matching label. */
  lemma OpenBullets(g: VenueGroup)
    requires forall s | s in g.sessions :: s.openSeats != 0
    ensures forall l | l in Lines(g) ::
              l.seats != 0 && NoAnnotation(l.title) && (l.suffix == "seat left" <==> l.seats == 1)
  {
    forall l | l in Lines(g)
      ensures l.seats != 0 && NoAnnotation(l.title) && (l.suffix == "seat left" <==> l.seats == 1)
    {
      var k :| 0 <= k < |Lines(g)| && Lines(g)[k] == l;
      assert g.sessions[k] in g.sessions;
    }
  }

  /** The same for a whole run: the digest lists exactly the parsed sessions
      of its date with a non-zero open seat count, each under its own venue. */
  lemma RunListsExactlyOpenSessions(entries: seq<RawEntry>, clock: Clock, today: Date, unescape: string -> string, s: Session)
    ensures var o := Run(entries, clock, today, unescape);
            o.Digest? ==>
              ((exists g :: g in o.groups && s in g.sessions) <==>
                 (s in ParseAll(entries, clock, unescape).value && s.date == Some(o.date) && s.openSeats != 0))
    ensures var o := Run(entries, clock, today, unescape);
            o.Digest? ==> forall g | g in o.groups && s in g.sessions :: g.venue == VenueOf(s)
  {
    if Run(entries, clock, today, unescape).Digest? {
      var sessions := ParseAll(entries, clock, unescape).value;
      assert Run(entries, clock, today, unescape) == Decide(sessions, today);
      DecideListsExactlyOpenSessions(sessions, today, s);
    }
  }

  /** From the end-to-end run: each venue's bullets are the parsed sessions
      listed for that venue, in feed order. */
  lemma RunKeepsFeedOrder(entries: seq<RawEntry>, clock: Clock, today: Date, unescape: string -> string)
    ensures var o := Run(entries, clock, today, unescape);
            o.Digest? ==>
              forall g | g in o.groups ::
                g.sessions == Filter(ParseAll(entries, clock, unescape).value, OpenOnAt(o.date, g.venue))
  {
    if Run(entries, clock, today, unescape).Digest? {
      var sessions := ParseAll(entries, clock, unescape).value;
      assert Run(entries, clock, today, unescape) == Decide(sessions, today);
      DecideKeepsFeedOrder(sessions, today);
    }
  }
}
