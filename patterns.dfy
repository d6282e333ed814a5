/** The regular expressions of index.js, each written as a predicate or a
    match function on strings: `regexp.email`, `regexp.id`, `regexp.date`
    and `regexp.reg` (the `%r/pattern/flags` literal). */
module Patterns {
  import opened Values
  import opened Text

  predicate IsDigit(c: char) {
    '0' <= c <= '9'
  }

  // ---------------------------------------------------------------------------
  // regexp.id: /^[a-z0-9]{24,}$/

  predicate IsIdChar(c: char) {
    'a' <= c <= 'z' || IsDigit(c)
  }

  /** regexp.id.test(s): at least 24 characters, all lower-case letters or digits. */
  function IsIdText(s: string): (r: bool)
    ensures r ==> '@' !in s && '.' !in s && forall i :: 0 <= i < |s| ==> !IsSpace(s[i])
  {
    |s| >= 24 && forall i :: 0 <= i < |s| ==> IsIdChar(s[i])
  }

  // ---------------------------------------------------------------------------
  // regexp.email: /^[^\s@]+@[^\s@]+\.[^\s@]+$/

  predicate EmailChar(c: char) {
    !IsSpace(c) && c != '@'
  }

  predicate AllEmailChars(s: string) {
    forall i :: 0 <= i < |s| ==> EmailChar(s[i])
  }

  /** regexp.email.test(s), as a scan: exactly one `@`, not first, no
      whitespace, and a `.` after the `@` with a character on each side. */
  function IsEmailText(s: string): bool {
    exists p | 0 < p < |s| :: AtSplit(s, p) && DotAfter(s, p)
  }

  /** A `.` after position `p + 1` that is not the last character. */
  predicate DotAfter(s: string, p: nat) {
    exists q | p + 1 < q < |s| - 1 :: s[q] == '.'
  }

  /** The only `@` of `s` is at `p`, and nothing in `s` is whitespace. */
  predicate AtSplit(s: string, p: nat) {
    p < |s| && s[p] == '@' && AllEmailChars(s[..p]) && AllEmailChars(s[p + 1..])
  }

  /** The shape the regular expression spells out: local part, `@`, a
      domain, `.`, a last label, the three parts non-empty and free of
      whitespace and `@`. */
  ghost predicate EmailShape(s: string) {
    exists local: string, domain: string, last: string ::
      s == local + "@" + domain + "." + last &&
      local != [] && domain != [] && last != [] &&
      AllEmailChars(local) && AllEmailChars(domain) && AllEmailChars(last)
  }

  lemma AllEmailCharsSlice(t: string, a: nat, b: nat)
    requires a <= b <= |t| && AllEmailChars(t)
    ensures AllEmailChars(t[a..b])
  {
    forall i | 0 <= i < b - a ensures EmailChar(t[a..b][i]) {
      assert t[a..b][i] == t[a + i];
    }
  }

  /** What the scan accepts has the regular expression's shape. */
  lemma EmailScanHasShape(s: string)
    requires IsEmailText(s)
    ensures EmailShape(s)
  {
    var p :| 0 < p < |s| && AtSplit(s, p) && DotAfter(s, p);
    var q :| p + 1 < q < |s| - 1 && s[q] == '.';
    SplitHasShape(s, p, q);
  }

  /** The `@` at `p` and a `.` at `q` cut the text into the three parts. */
  lemma SplitHasShape(s: string, p: nat, q: nat)
    requires 0 < p && AtSplit(s, p) && p + 1 < q < |s| - 1 && s[q] == '.'
    ensures EmailShape(s)
  {
    var t := s[p + 1..];
    var j := q - p - 1;
    CutAt(s, p);
    CutClean(t, j);
    assert [s[p]] == "@" && t[j] == s[q] && [t[j]] == ".";
    ShapeWitness(s, s[..p], t[..j], t[j + 1..]);
  }

  /** Cutting a string free of whitespace and `@` at one position leaves
      two such strings. */
  lemma CutClean(t: string, j: nat)
    requires j < |t| && AllEmailChars(t)
    ensures t == t[..j] + [t[j]] + t[j + 1..]
    ensures AllEmailChars(t[..j]) && AllEmailChars(t[j + 1..])
  {
    AllEmailCharsSlice(t, 0, j);
    AllEmailCharsSlice(t, j + 1, |t|);
    assert t[0..j] == t[..j];
    assert t[j + 1..|t|] == t[j + 1..];
  }

  lemma CutAt(s: string, i: nat)
    requires i < |s|
    ensures s == s[..i] + [s[i]] + s[i + 1..]
  {
  }

  lemma ShapeWitness(s: string, local: string, domain: string, last: string)
    requires s == local + "@" + (domain + "." + last)
    requires local != [] && domain != [] && last != []
    requires AllEmailChars(local) && AllEmailChars(domain) && AllEmailChars(last)
    ensures EmailShape(s)
  {
    assert s == local + "@" + domain + "." + last;
  }

  /** What has the regular expression's shape, the scan accepts. */
  lemma EmailShapeIsScanned(s: string)
    requires EmailShape(s)
    ensures IsEmailText(s)
  {
    var local: string, domain: string, last: string :|
      s == local + "@" + domain + "." + last &&
      local != [] && domain != [] && last != [] &&
      AllEmailChars(local) && AllEmailChars(domain) && AllEmailChars(last);
    var p := |local|;
    var q := p + 1 + |domain|;
    var t := s[p + 1..];
    assert s[p] == '@' && s[q] == '.';
    assert s[..p] == local;
    assert t == domain + "." + last;
    forall i | 0 <= i < |t| ensures EmailChar(t[i]) {
      if i < |domain| {
        assert t[i] == domain[i];
      } else if i > |domain| {
        assert t[i] == last[i - |domain| - 1];
      }
    }
    assert AtSplit(s, p);
    assert p + 1 < q < |s| - 1;
    assert DotAfter(s, p);
  }

  /** The scan accepts exactly the strings of the regular expression's shape. */
  lemma EmailShapeIff(s: string)
    ensures IsEmailText(s) <==> EmailShape(s)
  {
    if IsEmailText(s) {
      EmailScanHasShape(s);
    }
    if EmailShape(s) {
      EmailShapeIsScanned(s);
    }
  }

  // ---------------------------------------------------------------------------
  // regexp.date: /^(A)|(B)|(C)$/ where
  //   A = \d{4}-[01]\d-[0-3]\dT[0-2]\d:[0-5]\d:[0-5]\d\.\d+(ZONE)
  //   B = \d{4}-[01]\d-[0-3]\dT[0-2]\d:[0-5]\d:[0-5]\d(ZONE)
  //   C = \d{4}-[01]\d-[0-3]\dT[0-2]\d:[0-5]\d(ZONE)
  //   ZONE = [+-][0-2]\d:[0-5]\d|Z
  // Alternation binds loosest: `^` anchors only A, `$` only C, and B may
  // occur anywhere in the string.

  /** `\d{4}-[01]\d-[0-3]\dT[0-2]\d:[0-5]\d`, 16 characters from `i`. */
  predicate StampAt(s: string, i: nat) {
    i + 16 <= |s| &&
    IsDigit(s[i]) && IsDigit(s[i + 1]) && IsDigit(s[i + 2]) && IsDigit(s[i + 3]) &&
    s[i + 4] == '-' && '0' <= s[i + 5] <= '1' && IsDigit(s[i + 6]) &&
    s[i + 7] == '-' && '0' <= s[i + 8] <= '3' && IsDigit(s[i + 9]) &&
    s[i + 10] == 'T' && '0' <= s[i + 11] <= '2' && IsDigit(s[i + 12]) &&
    s[i + 13] == ':' && '0' <= s[i + 14] <= '5' && IsDigit(s[i + 15])
  }

  /** `:[0-5]\d`, 3 characters from `i`. */
  predicate SecondsAt(s: string, i: nat) {
    i + 3 <= |s| && s[i] == ':' && '0' <= s[i + 1] <= '5' && IsDigit(s[i + 2])
  }

  /** `[+-][0-2]\d:[0-5]\d`, 6 characters from `i`. */
  predicate OffsetAt(s: string, i: nat) {
    i + 6 <= |s| && (s[i] == '+' || s[i] == '-') && '0' <= s[i + 1] <= '2' &&
    IsDigit(s[i + 2]) && s[i + 3] == ':' && '0' <= s[i + 4] <= '5' && IsDigit(s[i + 5])
  }

  /** ZONE matches `s[i..i + n]`. */
  predicate ZoneAt(s: string, i: nat, n: nat) {
    (n == 1 && i < |s| && s[i] == 'Z') || (n == 6 && OffsetAt(s, i))
  }

  /** The length of the run of digits starting at `i`. */
  function DigitRun(s: string, i: nat): (n: nat)
    requires i <= |s|
    ensures i + n <= |s|
    ensures forall k :: i <= k < i + n ==> IsDigit(s[k])
    ensures i + n < |s| ==> !IsDigit(s[i + n])
    decreases |s| - i
  {
    if i < |s| && IsDigit(s[i]) then 1 + DigitRun(s, i + 1) else 0
  }

  /** Alternative A matches at the start: the digits of the fraction are
      taken as a maximal run, since a zone never starts with a digit. */
  predicate DateA(s: string) {
    StampAt(s, 0) && SecondsAt(s, 16) && 20 <= |s| && s[19] == '.' &&
    var n := DigitRun(s, 20);
    n >= 1 && (ZoneAt(s, 20 + n, 1) || ZoneAt(s, 20 + n, 6))
  }

  /** Alternative A as the regular expression states it, with the fraction
      `\d+` free to take any number of digits. */
  ghost predicate DateAShape(s: string) {
    StampAt(s, 0) && SecondsAt(s, 16) && 20 <= |s| && s[19] == '.' &&
    exists n: nat, z: nat :: FractionThenZone(s, n, z)
  }

  /** `\.\d+(ZONE)` after the seconds: `n` digits from 20, then a zone of length `z`. */
  predicate FractionThenZone(s: string, n: nat, z: nat) {
    1 <= n && 20 + n <= |s| && (forall k :: 20 <= k < 20 + n ==> IsDigit(s[k])) && ZoneAt(s, 20 + n, z)
  }

  lemma DateAIff(s: string)
    ensures DateA(s) <==> DateAShape(s)
  {
    if DateAShape(s) {
      var n: nat, z: nat :| FractionThenZone(s, n, z);
      var m := DigitRun(s, 20);
      assert m == n;
    }
    if DateA(s) {
      var n := DigitRun(s, 20);
      if ZoneAt(s, 20 + n, 1) {
        assert FractionThenZone(s, n, 1);
      } else {
        assert FractionThenZone(s, n, 6);
      }
    }
  }

  /** Alternative B matches at position `p`. */
  predicate DateBAt(s: string, p: nat) {
    StampAt(s, p) && SecondsAt(s, p + 16) && (ZoneAt(s, p + 19, 1) || ZoneAt(s, p + 19, 6))
  }

  /** Alternative C matches a suffix of `s`. */
  predicate DateC(s: string) {
    (|s| >= 17 && StampAt(s, |s| - 17) && s[|s| - 1] == 'Z') ||
    (|s| >= 22 && StampAt(s, |s| - 22) && OffsetAt(s, |s| - 6))
  }

  /** regexp.date.test(s). */
  predicate IsDate(s: string) {
    DateA(s) || (exists p | 0 <= p <= |s| :: DateBAt(s, p)) || DateC(s)
  }

  /** Every alternative holds a full timestamp, so a date has at least 17
      characters. */
  lemma DateLength(s: string)
    requires IsDate(s)
    ensures |s| >= 17
  {
    if !DateA(s) && !DateC(s) {
      var p :| 0 <= p <= |s| && DateBAt(s, p);
    }
  }

  /** The two timestamps of the tests match: one with a fraction
      (alternative A), one without (alternative B). */
  lemma DateExamples()
    ensures IsDate("2020-11-02T08:22:31.017Z")
    ensures IsDate("2020-11-02T08:22:31Z")
  {
    var a := "2020-11-02T08:22:31.017Z";
    assert StampAt(a, 0) && SecondsAt(a, 16);
    assert DigitRun(a, 23) == 0;
    assert DigitRun(a, 20) == 3;
    assert ZoneAt(a, 23, 1);
    assert DateA(a);
    var b := "2020-11-02T08:22:31Z";
    assert StampAt(b, 0) && SecondsAt(b, 16) && ZoneAt(b, 19, 1);
    assert DateBAt(b, 0);
  }

  /** A timestamp with seconds, then either nothing or a fraction running to
      the end, does not match: every alternative needs `Z` or an offset
      after the time, and nothing after the `T` can start one. */
  lemma NoZoneNotDate(s: string)
    requires StampAt(s, 0) && SecondsAt(s, 16)
    requires |s| == 19 || (s[19] == '.' && forall k :: 20 <= k < |s| ==> IsDigit(s[k]))
    ensures !IsDate(s)
  {
    forall k | 11 <= k < |s|
      ensures s[k] != 'T' && s[k] != 'Z' && s[k] != '+' && s[k] != '-'
    {
      if k >= 20 {
        assert IsDigit(s[k]);
      }
    }
    if |s| > 19 {
      var n := DigitRun(s, 20);
      assert 20 + n == |s|;
    }
    forall p | 0 <= p <= |s| ensures !DateBAt(s, p) {
      if p > 0 && p + 16 <= |s| {
        assert s[p + 10] != 'T';
      }
    }
  }

  /** The zone-less timestamps of the tests do not match. */
  lemma ZonelessNotDate()
    ensures !IsDate("2022-03-18T08:24:34")
    ensures !IsDate("2024-07-21T13:59:15.307")
  {
    var a := "2022-03-18T08:24:34";
    assert StampAt(a, 0) && SecondsAt(a, 16);
    NoZoneNotDate(a);
    var b := "2024-07-21T13:59:15.307";
    assert StampAt(b, 0) && SecondsAt(b, 16) && b[19] == '.';
    assert IsDigit(b[20]) && IsDigit(b[21]) && IsDigit(b[22]);
    NoZoneNotDate(b);
  }

  // ---------------------------------------------------------------------------
  // regexp.reg: /^%r\/(.+)\/([ig]{0,2})/

  /** The two capture groups of a `%r` literal. */
  datatype RegLiteral = RegLiteral(pattern: string, flags: string)

  predicate IsFlagChar(c: char) {
    c == 'i' || c == 'g'
  }

  /** Where `.+` starting at `i` must stop: the first line terminator, or the end. */
  function LineEnd(s: string, i: nat): (e: nat)
    requires i <= |s|
    ensures i <= e <= |s|
    ensures forall k :: i <= k < e ==> !IsLineTerminator(s[k])
    ensures e < |s| ==> IsLineTerminator(s[e])
    decreases |s| - i
  {
    if i < |s| && !IsLineTerminator(s[i]) then LineEnd(s, i + 1) else i
  }

  /** The last `/` in `s[lo..hi]`, if any. */
  function LastSlash(s: string, lo: nat, hi: nat): (r: Option<nat>)
    requires lo <= hi <= |s|
    ensures r.Some? ==> lo <= r.value < hi && s[r.value] == '/'
    ensures forall k :: (if r.Some? then r.value + 1 else lo) <= k < hi ==> s[k] != '/'
    decreases hi - lo
  {
    if lo == hi then None
    else if s[hi - 1] == '/' then Some(hi - 1)
    else LastSlash(s, lo, hi - 1)
  }

  /** `[ig]{0,2}` from `i`, greedy. */
  function FlagsAt(s: string, i: nat): (f: string)
    requires i <= |s|
    ensures |f| <= 2 && i + |f| <= |s| && f == s[i..i + |f|]
    ensures forall k :: 0 <= k < |f| ==> IsFlagChar(f[k])
    ensures |f| < 2 && i + |f| < |s| ==> !IsFlagChar(s[i + |f|])
  {
    if i < |s| && IsFlagChar(s[i]) then
      if i + 1 < |s| && IsFlagChar(s[i + 1]) then s[i..i + 2] else s[i..i + 1]
    else ""
  }

  /** `s.match(regexp.reg)`: the captures `RegExp.$1` and `RegExp.$2` on a match.
      `.+` is greedy, so the pattern runs to the last `/` of the first line;
      the flags are at most two `i`/`g` characters; what follows is ignored. */
  function MatchReg(s: string): (r: Option<RegLiteral>)
    ensures r.Some? ==> RegShape(s, r.value.pattern, r.value.flags)
  {
    if |s| < 3 || s[..3] != "%r/" || LineEnd(s, 3) < 4 then None
    else match LastSlash(s, 4, LineEnd(s, 3))
      case None => None
      case Some(j) =>
        var lit := RegLiteral(s[3..j], FlagsAt(s, j + 1));
        assert s[..3] + lit.pattern + "/" + lit.flags == s[..j + 1 + |lit.flags|];
        Some(lit)
  }

  /** `%r/` + pattern + `/` + flags is a prefix of `s`, the pattern being
      `.+` and the flags `[ig]{0,2}`: the ways the expression can match. */
  ghost predicate RegShape(s: string, pattern: string, flags: string) {
    |pattern| >= 1 && |flags| <= 2 &&
    (forall k :: 0 <= k < |pattern| ==> !IsLineTerminator(pattern[k])) &&
    (forall k :: 0 <= k < |flags| ==> IsFlagChar(flags[k])) &&
    |"%r/" + pattern + "/" + flags| <= |s| &&
    s[..|"%r/" + pattern + "/" + flags|] == "%r/" + pattern + "/" + flags
  }

  /** The literal matches exactly when some split of it fits the expression,
      and the captures are those a backtracking matcher reports: the longest
      pattern, then the longest flags. */
  lemma MatchRegIsGreedy(s: string, pattern: string, flags: string)
    requires RegShape(s, pattern, flags)
    ensures MatchReg(s).Some?
    ensures |pattern| <= |MatchReg(s).value.pattern|
    ensures pattern == MatchReg(s).value.pattern ==> |flags| <= |MatchReg(s).value.flags|
  {
    var j := 3 + |pattern|;
    var lit := "%r/" + pattern + "/" + flags;
    assert s[..3] == lit[..3] == "%r/";
    assert s[j] == lit[j] == '/';
    var e := LineEnd(s, 3);
    forall k | 3 <= k < j ensures !IsLineTerminator(s[k]) {
      assert s[k] == lit[k] == pattern[k - 3];
    }
    assert j < e;
    var m := LastSlash(s, 4, e);
    assert m.Some? && j <= m.value;
    if m.value == j {
      var f := FlagsAt(s, j + 1);
      forall k | j + 1 <= k < j + 1 + |flags| ensures IsFlagChar(s[k]) {
        assert s[k] == lit[k] == flags[k - j - 1];
      }
    }
  }

  /** Text that does not start with `%` is no `%r` literal. */
  lemma NoRegLiteral(s: string)
    requires s != [] && s[0] != '%'
    ensures MatchReg(s).None?
  {
    if |s| >= 3 {
      assert s[..3][0] != "%r/"[0];
    }
  }

  /** `%r/hello/` is a literal with pattern `hello` and no flags. */
  lemma MatchRegExample()
    ensures MatchReg("%r/hello/") == Some(RegLiteral("hello", ""))
  {
    var s := "%r/hello/";
    assert s[..3] == "%r/";
    assert LineEnd(s, 3) == 9;
    assert LastSlash(s, 4, 9) == Some(8);
    assert s[3..8] == "hello";
    assert FlagsAt(s, 9) == "";
  }
}
