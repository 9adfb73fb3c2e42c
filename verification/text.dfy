/** Character classes and the small string operations of Python's `str`
    that the scraper relies on: `strip`, `split(...)[0]`, `startswith`,
    `int(...)` of a digit string, and the ordering `sorted` uses. */
module Text {

  /** The characters Python treats as whitespace, both for `\s` in a `re`
      pattern over `str` and for `str.strip()` without arguments. */
  const Whitespace: set<char> := {
    '\t', '\n', '\U{b}', '\U{c}', '\r', '\U{1c}', '\U{1d}', '\U{1e}', '\U{1f}', ' ',
    '\U{85}', '\U{a0}', '\U{1680}',
    '\U{2000}', '\U{2001}', '\U{2002}', '\U{2003}', '\U{2004}', '\U{2005}',
    '\U{2006}', '\U{2007}', '\U{2008}', '\U{2009}', '\U{200a}',
    '\U{2028}', '\U{2029}', '\U{202f}', '\U{205f}', '\U{3000}'
  }

  /** The ASCII decimal digits (what `\d` and `int` accept in this model). */
  const Digits: set<char> := {'0', '1', '2', '3', '4', '5', '6', '7', '8', '9'}

  /** Every character of `s[i..j]` belongs to `cs`. */
  predicate InClass(s: string, i: nat, j: nat, cs: set<char>) {
    i <= j <= |s| && forall k | i <= k < j :: s[k] in cs
  }

  /** No character of `s[i..j]` belongs to `cs`. */
  predicate OutOfClass(s: string, i: nat, j: nat, cs: set<char>) {
    i <= j <= |s| && forall k | i <= k < j :: s[k] !in cs
  }

  /** `s` is made of decimal digits only. */
  predicate IsDigitString(s: string) {
    InClass(s, 0, |s|, Digits)
  }

  /** `t` occurs in `s` as a contiguous piece. */
  predicate IsInfix(t: string, s: string) {
    exists a: nat, b: nat | a <= b <= |s| :: t == s[a..b]
  }

  /** The end of the longest run of `cs` characters starting at `i`. */
  function RunIn(s: string, i: nat, cs: set<char>): (j: nat)
    requires i <= |s|
    ensures InClass(s, i, j, cs)
    ensures j == |s| || s[j] !in cs
    decreases |s| - i
  {
    if i < |s| && s[i] in cs then RunIn(s, i + 1, cs) else i
  }

  /** The end of the longest run of characters outside `cs` starting at `i`. */
  function RunNotIn(s: string, i: nat, cs: set<char>): (j: nat)
    requires i <= |s|
    ensures OutOfClass(s, i, j, cs)
    ensures j == |s| || s[j] in cs
    decreases |s| - i
  {
    if i < |s| && s[i] !in cs then RunNotIn(s, i + 1, cs) else i
  }

  /** A run of `cs` characters that stops at `j` ends where `RunIn` says. */
  lemma RunInExact(s: string, i: nat, j: nat, cs: set<char>)
    requires InClass(s, i, j, cs) && (j == |s| || s[j] !in cs)
    ensures RunIn(s, i, cs) == j
    decreases j - i
  {
    if i < j {
      RunInExact(s, i + 1, j, cs);
    }
  }

  /** A run of characters outside `cs` that stops at `j` ends where
      `RunNotIn` says. */
  lemma RunNotInExact(s: string, i: nat, j: nat, cs: set<char>)
    requires OutOfClass(s, i, j, cs) && (j == |s| || s[j] in cs)
    ensures RunNotIn(s, i, cs) == j
    decreases j - i
  {
    if i < j {
      RunNotInExact(s, i + 1, j, cs);
    }
  }

  /** A slice whose characters all lie in a class is a string of that class. */
  lemma SliceInClass(s: string, i: nat, j: nat, cs: set<char>)
    requires InClass(s, i, j, cs)
    ensures InClass(s[i..j], 0, j - i, cs)
  {
    forall k | 0 <= k < j - i ensures s[i..j][k] in cs {
      assert s[i..j][k] == s[i + k];
    }
  }

  /** The start of the longest run of `cs` characters ending at `j`,
      not going below `lo`. */
  function RunInBack(s: string, lo: nat, j: nat, cs: set<char>): (i: nat)
    requires lo <= j <= |s|
    ensures lo <= i && InClass(s, i, j, cs)
    ensures i == lo || s[i - 1] !in cs
    decreases j - lo
  {
    if lo < j && s[j - 1] in cs then RunInBack(s, lo, j - 1, cs) else j
  }

  /** Python's `s.strip(chars)`: drop every leading and trailing character
      that belongs to `cs`. */
  function Strip(s: string, cs: set<char>): (r: string)
    ensures exists a: nat, b: nat | a <= b <= |s| ::
              r == s[a..b] && InClass(s, 0, a, cs) && InClass(s, b, |s|, cs)
    ensures r == [] || (r[0] !in cs && r[|r| - 1] !in cs)
    ensures r == [] <==> InClass(s, 0, |s|, cs)
  {
    var a := RunIn(s, 0, cs);
    var b := RunInBack(s, a, |s|, cs);
    assert InClass(s, 0, |s|, cs) ==> a == |s|;
    s[a..b]
  }

  /** Python's `s.strip()`. */
  function Trim(s: string): (r: string)
    ensures Unpadded(r, Whitespace)
    ensures r == [] <==> InClass(s, 0, |s|, Whitespace)
  {
    Strip(s, Whitespace)
  }

  /** A string without leading or trailing characters of `cs`. */
  predicate Unpadded(s: string, cs: set<char>) {
    s == [] || (s[0] !in cs && s[|s| - 1] !in cs)
  }

  /** The pieces `Strip` removes are exactly the padding: any split of `s`
      into a `cs`-prefix, an unpadded middle and a `cs`-suffix yields
      the middle. */
  lemma StripCharacterised(s: string, cs: set<char>, a: nat, b: nat)
    requires a <= b <= |s|
    requires InClass(s, 0, a, cs) && InClass(s, b, |s|, cs)
    requires Unpadded(s[a..b], cs)
    ensures Strip(s, cs) == s[a..b]
  {
    var a' := RunIn(s, 0, cs);
    var b' := RunInBack(s, a', |s|, cs);
    if a == b {
      assert InClass(s, 0, |s|, cs);
    } else {
      assert s[a] !in cs && s[b - 1] !in cs;
      assert a' == a;
      assert b' == b;
    }
  }

  /** Padding of `cs` characters on either side of an unpadded middle is
      exactly what `Strip` removes. */
  lemma StripPadding(pre: string, mid: string, post: string, cs: set<char>)
    requires InClass(pre, 0, |pre|, cs) && InClass(post, 0, |post|, cs)
    requires Unpadded(mid, cs)
    ensures Strip(pre + mid + post, cs) == mid
  {
    var s := pre + mid + post;
    assert s[|pre|..|pre| + |mid|] == mid;
    assert forall k | 0 <= k < |pre| :: s[k] == pre[k];
    assert forall k | |pre| + |mid| <= k < |s| :: s[k] == post[k - |pre| - |mid|];
    StripCharacterised(s, cs, |pre|, |pre| + |mid|);
  }

  /** An unpadded string is its own strip. */
  lemma StripUnpadded(s: string, cs: set<char>)
    requires Unpadded(s, cs)
    ensures Strip(s, cs) == s
  {
    assert s[0..|s|] == s;
    StripCharacterised(s, cs, 0, |s|);
  }

  /** Stripping an unpadded string changes nothing, so `Strip` is idempotent. */
  lemma StripIdempotent(s: string, cs: set<char>)
    ensures Strip(Strip(s, cs), cs) == Strip(s, cs)
  {
    StripUnpadded(Strip(s, cs), cs);
  }

  /** What `Strip` returns is a piece of its input. */
  lemma StripIsInfix(s: string, cs: set<char>)
    ensures IsInfix(Strip(s, cs), s)
  {
    var r := Strip(s, cs);
    var a: nat, b: nat :| a <= b <= |s| && r == s[a..b] && InClass(s, 0, a, cs) && InClass(s, b, |s|, cs);
  }

  /** An infix of an infix is an infix. */
  lemma InfixTransitive(t: string, u: string, s: string)
    requires IsInfix(t, u) && IsInfix(u, s)
    ensures IsInfix(t, s)
  {
    var a: nat, b: nat :| a <= b <= |u| && t == u[a..b];
    var c: nat, d: nat :| c <= d <= |s| && u == s[c..d];
    assert |u| == d - c;
    var w := s[c + a..c + b];
    forall k | 0 <= k < |t| ensures t[k] == w[k] {
      assert t[k] == u[a + k] == s[c + a + k];
    }
    assert t == w;
  }

  /** A property of every character is inherited by every infix. */
  lemma InfixOutOfClass(t: string, s: string, cs: set<char>)
    requires IsInfix(t, s) && OutOfClass(s, 0, |s|, cs)
    ensures OutOfClass(t, 0, |t|, cs)
  {
    var a: nat, b: nat :| a <= b <= |s| && t == s[a..b];
    forall k | 0 <= k < |t| ensures t[k] !in cs {
      assert t[k] == s[a + k];
    }
  }

  /** Python's `s.split(c)[0]`: the text before the first `c`, or all of `s`. */
  function BeforeFirst(s: string, c: char): (r: string)
    ensures |r| <= |s| && r == s[..|r|]
    ensures c !in r && OutOfClass(r, 0, |r|, {c})
    ensures |r| == |s| || s[|r|] == c
    ensures IsInfix(r, s)
  {
    var j := RunNotIn(s, 0, {c});
    assert forall k | 0 <= k < j :: s[..j][k] == s[k];
    assert s[..j] == s[0..j];
    s[..j]
  }

  /** The prefix before the first `c` is the only prefix free of `c` that is
      followed by `c` or ends the string. */
  lemma BeforeFirstCharacterised(s: string, c: char, n: nat)
    requires n <= |s| && c !in s[..n] && (n == |s| || s[n] == c)
    ensures BeforeFirst(s, c) == s[..n]
  {
  }

  /** Python's `s.startswith(p)`. */
  predicate StartsWith(s: string, p: string) {
    |p| <= |s| && s[..|p|] == p
  }

  /** The value of one decimal digit. */
  function DigitValue(c: char): (v: nat)
    requires c in Digits
    ensures v < 10
  {
    (c as int) - ('0' as int)
  }

  /** The decimal digit whose value is `v`. */
  function DigitChar(v: nat): (c: char)
    requires v < 10
    ensures c in Digits && DigitValue(c) == v
  {
    ((v + ('0' as int)) as char)
  }

  /** `10^k`. */
  function Pow10(k: nat): (p: nat)
    ensures p >= 1
  {
    if k == 0 then 1 else 10 * Pow10(k - 1)
  }

  /** Python's `int(s)` for a string of decimal digits. */
  function DigitsValue(s: string): (v: nat)
    requires IsDigitString(s)
    ensures v < Pow10(|s|)
  {
    if s == [] then 0
    else
      assert IsDigitString(s[..|s| - 1]);
      DigitsValue(s[..|s| - 1]) * 10 + DigitValue(s[|s| - 1])
  }

  /** The `width`-digit, zero-padded decimal spelling of `n` (the form
      `%Y`, `%m` and `%d` read). */
  function PadDigits(n: nat, width: nat): (r: string)
    requires n < Pow10(width)
    ensures |r| == width && IsDigitString(r)
    ensures DigitsValue(r) == n
  {
    if width == 0 then []
    else
      var p := PadDigits(n / 10, width - 1);
      var r := p + [DigitChar(n % 10)];
      assert r[..|r| - 1] == p;
      r
  }

  /** Spelling out the value of a digit string with its own width gives the
      string back: a digit string is determined by its width and value. */
  lemma {:induction false} PadDigitsOfValue(s: string)
    requires IsDigitString(s)
    ensures PadDigits(DigitsValue(s), |s|) == s
  {
    if s != [] {
      var init, last := s[..|s| - 1], s[|s| - 1];
      assert IsDigitString(init);
      PadDigitsOfValue(init);
      var v := DigitsValue(s);
      DropLastDigit(DigitsValue(init), DigitValue(last), v);
      DigitCharOfValue(last);
      assert PadDigits(v, |s|) == PadDigits(v / 10, |s| - 1) + [DigitChar(v % 10)];
      assert s == init + [last];
    }
  }

  /** Appending the digit `d` to `x` gives `v`, and dividing by ten takes
      it off again. */
  lemma DropLastDigit(x: nat, d: nat, v: nat)
    requires d < 10 && v == x * 10 + d
    ensures v / 10 == x && v % 10 == d
  {
  }

  /** Reading a digit and spelling its value gives the digit back. */
  lemma DigitCharOfValue(c: char)
    requires c in Digits
    ensures DigitChar(DigitValue(c)) == c
  {
  }

  /** Python's ordering of strings: lexicographic by code point, a proper
      prefix coming first. */
  predicate Below(a: string, b: string) {
    if a == [] then b != []
    else if b == [] then false
    else if a[0] != b[0] then a[0] < b[0]
    else Below(a[1..], b[1..])
  }

  lemma {:induction false} BelowIrreflexive(a: string)
    ensures !Below(a, a)
  {
    if a != [] {
      BelowIrreflexive(a[1..]);
    }
  }

  lemma {:induction false} BelowTransitive(a: string, b: string, c: string)
    requires Below(a, b) && Below(b, c)
    ensures Below(a, c)
  {
    if a != [] && b != [] && c != [] && a[0] == b[0] && b[0] == c[0] {
      BelowTransitive(a[1..], b[1..], c[1..]);
    }
  }

  lemma {:induction false} BelowTotal(a: string, b: string)
    requires a != b
    ensures Below(a, b) || Below(b, a)
  {
    if a != [] && b != [] && a[0] == b[0] {
      assert a == [a[0]] + a[1..] && b == [b[0]] + b[1..];
      BelowTotal(a[1..], b[1..]);
    }
  }
}
