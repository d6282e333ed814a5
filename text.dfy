/** String primitives of the JavaScript runtime that index.js relies on:
    String.prototype.trim, String.prototype.split with a one-character
    separator, Array.prototype.join, and the String() conversion. */
module Text {
  import opened Values

  /** JavaScript WhiteSpace or LineTerminator: what `trim` strips and `\s` matches. */
  predicate IsSpace(c: char) {
    var n := c as int;
    n == 0x09 || n == 0x0A || n == 0x0B || n == 0x0C || n == 0x0D || n == 0x20 ||
    n == 0xA0 || n == 0x1680 || (0x2000 <= n <= 0x200A) || n == 0x2028 ||
    n == 0x2029 || n == 0x202F || n == 0x205F || n == 0x3000 || n == 0xFEFF
  }

  /** The characters `.` in a regular expression does not match. */
  predicate IsLineTerminator(c: char) {
    var n := c as int;
    n == 0x0A || n == 0x0D || n == 0x2028 || n == 0x2029
  }

  /** No whitespace at either end: the strings `trim` leaves alone. */
  predicate IsTrimmed(s: string) {
    s == [] || (!IsSpace(s[0]) && !IsSpace(s[|s| - 1]))
  }

  /** `s` with its leading whitespace removed. */
  function TrimStart(s: string): (r: string)
    ensures |r| <= |s| && r == s[|s| - |r|..]
    ensures forall i :: 0 <= i < |s| - |r| ==> IsSpace(s[i])
    ensures r == [] || !IsSpace(r[0])
  {
    if s != [] && IsSpace(s[0]) then TrimStart(s[1..]) else s
  }

  /** `s` with its trailing whitespace removed. */
  function TrimEnd(s: string): (r: string)
    ensures |r| <= |s| && r == s[..|r|]
    ensures forall i :: |r| <= i < |s| ==> IsSpace(s[i])
    ensures r == [] || !IsSpace(r[|r| - 1])
  {
    if s != [] && IsSpace(s[|s| - 1]) then TrimEnd(s[..|s| - 1]) else s
  }

  /** String.prototype.trim. */
  function Trim(s: string): (r: string)
    ensures IsTrimmed(r)
  {
    var t := TrimStart(s);
    var r := TrimEnd(t);
    assert r != [] ==> r[0] == t[0];
    r
  }

  /** `trim` cuts `s` into whitespace, the result, whitespace. */
  lemma TrimSlice(s: string) returns (lead: nat)
    ensures lead + |Trim(s)| <= |s| && s[lead..lead + |Trim(s)|] == Trim(s)
    ensures forall i :: 0 <= i < lead ==> IsSpace(s[i])
    ensures forall i :: lead + |Trim(s)| <= i < |s| ==> IsSpace(s[i])
  {
    var t := TrimStart(s);
    lead := |s| - |t|;
    var r := TrimEnd(t);
    assert Trim(s) == r;
    SuffixSlice(s, t, lead, |r|);
    SpaceTail(s, t, lead, |r|);
  }

  /** Whitespace after the first `n` characters of a suffix is whitespace
      of the whole text. */
  lemma SpaceTail(s: string, t: string, lead: nat, n: nat)
    requires lead <= |s| && t == s[lead..] && n <= |t|
    requires forall i :: n <= i < |t| ==> IsSpace(t[i])
    ensures forall i :: lead + n <= i < |s| ==> IsSpace(s[i])
  {
    forall i | lead + n <= i < |s| ensures IsSpace(s[i]) {
      assert s[i] == t[i - lead];
    }
  }

  /** A prefix of a suffix is a slice. */
  lemma SuffixSlice(s: string, t: string, lead: nat, n: nat)
    requires lead <= |s| && t == s[lead..] && n <= |t|
    ensures s[lead..lead + n] == t[..n]
    ensures forall i :: lead <= i < |s| ==> s[i] == t[i - lead]
  {
  }

  /** A string without surrounding whitespace is its own trim. */
  lemma TrimOfTrimmed(s: string)
    requires IsTrimmed(s)
    ensures Trim(s) == s
  {
    assert TrimStart(s) == s;
    assert TrimEnd(s) == s;
  }

  lemma TrimIdempotent(s: string)
    ensures Trim(Trim(s)) == Trim(s)
  {
    TrimOfTrimmed(Trim(s));
  }

  /** Array.prototype.join of strings. */
  function Join(parts: seq<string>, sep: string): string {
    if |parts| == 0 then ""
    else if |parts| == 1 then parts[0]
    else parts[0] + sep + Join(parts[1..], sep)
  }

  /** The index of the first `c` in `s`, if any. */
  function IndexOf(s: string, c: char): (r: Option<nat>)
    ensures r.None? <==> c !in s
    ensures r.Some? ==> r.value < |s| && s[r.value] == c && c !in s[..r.value]
  {
    if s == [] then None
    else if s[0] == c then Some(0)
    else match IndexOf(s[1..], c)
      case None => None
      case Some(i) => assert s[1..][..i] == s[1..i + 1]; Some(i + 1)
  }

  /** String.prototype.split with the one-character separator `c`. */
  function SplitOn(s: string, c: char): (parts: seq<string>)
    ensures |parts| >= 1
    ensures forall k :: 0 <= k < |parts| ==> c !in parts[k]
    decreases |s|
  {
    match IndexOf(s, c)
    case None => [s]
    case Some(i) => [s[..i]] + SplitOn(s[i + 1..], c)
  }

  /** How many times `c` occurs in `s`. */
  function Count(s: string, c: char): nat {
    if s == [] then 0 else (if s[0] == c then 1 else 0) + Count(s[1..], c)
  }

  lemma {:induction false} CountAppend(a: string, b: string, c: char)
    ensures Count(a + b, c) == Count(a, c) + Count(b, c)
  {
    if a == [] {
      assert a + b == b;
    } else {
      assert (a + b)[0] == a[0];
      assert (a + b)[1..] == a[1..] + b;
      CountAppend(a[1..], b, c);
    }
  }

  lemma CountAbsent(s: string, c: char)
    requires c !in s
    ensures Count(s, c) == 0
  {
    if s != [] {
      CountAbsent(s[1..], c);
    }
  }

  /** Splitting at the first `c`: the text before it, then the parts of the rest. */
  lemma SplitStep(s: string, c: char, i: nat)
    requires IndexOf(s, c) == Some(i)
    ensures SplitOn(s, c) == [s[..i]] + SplitOn(s[i + 1..], c)
  {
  }

  lemma JoinCons(x: string, parts: seq<string>, sep: string)
    requires |parts| >= 1
    ensures Join([x] + parts, sep) == x + sep + Join(parts, sep)
  {
    assert ([x] + parts)[1..] == parts;
  }

  /** Splitting on `c` and joining with `c` gives back the string. */
  lemma {:induction false} SplitJoin(s: string, c: char)
    ensures Join(SplitOn(s, c), [c]) == s
    decreases |s|
  {
    var idx := IndexOf(s, c);
    if idx.Some? {
      var i := idx.value;
      var rest := s[i + 1..];
      SplitJoin(rest, c);
      SplitStep(s, c, i);
      JoinCons(s[..i], SplitOn(rest, c), [c]);
      assert s == s[..i] + [c] + rest;
    }
  }

  /** There is one more part than there are separators. */
  lemma {:induction false} SplitCount(s: string, c: char)
    ensures |SplitOn(s, c)| == Count(s, c) + 1
    decreases |s|
  {
    match IndexOf(s, c)
    case None =>
      CountAbsent(s, c);
    case Some(i) =>
      var rest := s[i + 1..];
      SplitCount(rest, c);
      assert s == s[..i] + ([c] + rest);
      CountAbsent(s[..i], c);
      CountAppend(s[..i], [c] + rest, c);
      CountAppend([c], rest, c);
  }

  /** Joining parts free of `c` with `c` and splitting again gives back the parts. */
  lemma {:induction false} JoinSplit(parts: seq<string>, c: char)
    requires |parts| >= 1
    requires forall k :: 0 <= k < |parts| ==> c !in parts[k]
    ensures SplitOn(Join(parts, [c]), c) == parts
    decreases |parts|
  {
    if |parts| == 1 {
      assert IndexOf(parts[0], c).None?;
    } else {
      var tail := Join(parts[1..], [c]);
      var s := parts[0] + [c] + tail;
      assert Join(parts, [c]) == s;
      assert s[|parts[0]|] == c;
      assert s[..|parts[0]|] == parts[0];
      var i := IndexOf(s, c);
      assert i.Some? && i.value == |parts[0]|;
      assert s[|parts[0]| + 1..] == tail;
      JoinSplit(parts[1..], c);
    }
  }

  /** A character absent from `s` is absent from every slice of it. */
  lemma AbsentSlice(s: string, d: char, lo: nat, hi: nat)
    requires d !in s && lo <= hi <= |s|
    ensures d !in s[lo..hi]
  {
    forall j | 0 <= j < hi - lo ensures s[lo..hi][j] != d {
      assert s[lo..hi][j] == s[lo + j];
    }
  }

  /** A character absent from `s` is absent from every part of it. */
  lemma {:induction false} SplitPartsWithout(s: string, c: char, d: char)
    requires d !in s
    ensures forall k :: 0 <= k < |SplitOn(s, c)| ==> d !in SplitOn(s, c)[k]
    decreases |s|
  {
    match IndexOf(s, c)
    case None =>
    case Some(i) =>
      var rest := s[i + 1..];
      SplitStep(s, c, i);
      AbsentSlice(s, d, i + 1, |s|);
      AbsentSlice(s, d, 0, i);
      assert s[i + 1..|s|] == rest && s[0..i] == s[..i];
      SplitPartsWithout(rest, c, d);
      var parts := SplitOn(s, c);
      forall k | 0 <= k < |parts| ensures d !in parts[k] {
        if k > 0 {
          assert parts[k] == SplitOn(rest, c)[k - 1];
        }
      }
  }

  /** Joining two lists of parts is joining each and putting a separator between. */
  lemma {:induction false} JoinAppend(a: seq<string>, b: seq<string>, sep: string)
    requires |a| >= 1 && |b| >= 1
    ensures Join(a + b, sep) == Join(a, sep) + sep + Join(b, sep)
    decreases |a|
  {
    assert a + b == [a[0]] + (a[1..] + b);
    JoinCons(a[0], a[1..] + b, sep);
    if |a| > 1 {
      JoinAppend(a[1..], b, sep);
      assert a == [a[0]] + a[1..];
      JoinCons(a[0], a[1..], sep);
    }
  }

  /** Splitting around one separator splits each side. */
  lemma SplitAround(a: string, b: string, c: char)
    ensures SplitOn(a + [c] + b, c) == SplitOn(a, c) + SplitOn(b, c)
  {
    var parts := SplitOn(a, c) + SplitOn(b, c);
    JoinAppend(SplitOn(a, c), SplitOn(b, c), [c]);
    SplitJoin(a, c);
    SplitJoin(b, c);
    JoinSplit(parts, c);
  }

  /** Decimal digits of a natural number, as Number.prototype.toString gives them. */
  function NatText(n: nat): (r: string)
    ensures |r| >= 1 && forall i :: 0 <= i < |r| ==> '0' <= r[i] <= '9'
    ensures r[0] == '0' ==> n == 0
  {
    if n < 10 then [DigitChar(n)] else NatText(n / 10) + [DigitChar(n % 10)]
  }

  function DigitChar(d: nat): (c: char)
    requires d < 10
    ensures '0' <= c <= '9' && (c == '0' <==> d == 0)
  {
    ('0' as int + d) as char
  }

  /** The value of a run of decimal digits. */
  function DigitsValue(s: string): nat
    requires forall i :: 0 <= i < |s| ==> '0' <= s[i] <= '9'
  {
    if s == [] then 0 else DigitsValue(s[..|s| - 1]) * 10 + (s[|s| - 1] as int - '0' as int)
  }

  /** Reading back the digits of a number gives the number. */
  lemma {:induction false} NatTextRoundTrip(n: nat)
    ensures DigitsValue(NatText(n)) == n
  {
    if n >= 10 {
      NatTextRoundTrip(n / 10);
      var s := NatText(n);
      assert s[..|s| - 1] == NatText(n / 10);
    }
  }

  /** String(n) for an integer-valued Number. */
  function NumberText(n: int): (r: string)
    ensures r != [] && (r[0] == '-' <==> n < 0)
    ensures forall i :: 0 < i < |r| ==> '0' <= r[i] <= '9'
    ensures n >= 0 ==> '0' <= r[0] <= '9'
  {
    if n < 0 then "-" + NatText(-n) else NatText(n)
  }

  /** The integer a sign and a run of digits spell. */
  function ReadNumber(t: string): int
    requires t != [] && (t[0] == '-' || '0' <= t[0] <= '9')
    requires forall i :: 0 < i < |t| ==> '0' <= t[i] <= '9'
  {
    if t[0] == '-' then -(DigitsValue(t[1..]) as int) else DigitsValue(t)
  }

  /** Reading back the text of any integer, negative ones included, gives
      the integer. */
  lemma NumberTextRoundTrip(n: int)
    ensures ReadNumber(NumberText(n)) == n
  {
    NatTextRoundTrip(if n < 0 then -n else n);
    if n < 0 {
      assert NumberText(n)[1..] == NatText(-n);
    }
  }

  /** The flags of a RegExp as its `flags` getter lists them: `g` before `i`. */
  function CanonicalFlags(f: string): string {
    (if 'g' in f then "g" else "") + (if 'i' in f then "i" else "")
  }

  /** The `source` of `new RegExp(p)`: `(?:)` for an empty pattern, else the
      pattern escaped as V8, Node's engine, writes it, so that the text can
      stand between two `/`. */
  function Source(p: string): string {
    if p == "" then "(?:)" else Escape(p, 0, false)
  }

  /** The escaped text of `p[i..]`, `inClass` telling whether the scan is
      inside a `[...]` class: a `/` outside a class gets a `\` in front; a
      line terminator is written as its escape sequence, and a `\` in front
      of one is dropped; any other `\` is kept with the character after it. */
  function Escape(p: string, i: nat, inClass: bool): (r: string)
    ensures forall k :: 0 <= k < |r| ==> !IsLineTerminator(r[k])
    decreases |p| - i
  {
    if i >= |p| then ""
    else
      var c := p[i];
      if c == '\\' then
        if i + 1 < |p| && IsLineTerminator(p[i + 1]) then Escape(p, i + 1, inClass)
        else if i + 1 < |p| then [c, p[i + 1]] + Escape(p, i + 2, inClass)
        else [c]
      else if c == '/' && !inClass then "\\/" + Escape(p, i + 1, inClass)
      else if c == '\n' then "\\n" + Escape(p, i + 1, inClass)
      else if c == '\r' then "\\r" + Escape(p, i + 1, inClass)
      else if c as int == 0x2028 then "\\u2028" + Escape(p, i + 1, inClass)
      else if c as int == 0x2029 then "\\u2029" + Escape(p, i + 1, inClass)
      else [c] + Escape(p, i + 1, c == '[' || (inClass && c != ']'))
  }

  /** A pattern without `/`, `\\` or line terminators is its own source text. */
  lemma {:induction false} EscapePlain(p: string, i: nat, inClass: bool)
    requires i <= |p|
    requires forall k :: i <= k < |p| ==> p[k] != '/' && p[k] != '\\' && !IsLineTerminator(p[k])
    ensures Escape(p, i, inClass) == p[i..]
    decreases |p| - i
  {
    if i < |p| {
      var c := p[i];
      EscapePlain(p, i + 1, c == '[' || (inClass && c != ']'));
      assert p[i..] == [c] + p[i + 1..];
    }
  }

  /** `p` with a `\\` put in front of every `/`: in the result, every `/`
      follows a `\\`. */
  function SlashEscaped(p: string): (r: string)
    ensures forall k :: 0 <= k < |r| && r[k] == '/' ==> 0 < k && r[k - 1] == '\\'
  {
    if p == [] then []
    else (if p[0] == '/' then "\\/" else [p[0]]) + SlashEscaped(p[1..])
  }

  /** Outside a class, a pattern free of `\\`, `[` and line terminators has
      each of its `/` escaped and every other character kept. */
  lemma {:induction false} EscapeSlashes(p: string, i: nat)
    requires i <= |p|
    requires forall k :: i <= k < |p| ==> p[k] != '\\' && p[k] != '[' && !IsLineTerminator(p[k])
    ensures Escape(p, i, false) == SlashEscaped(p[i..])
    decreases |p| - i
  {
    if i < |p| {
      EscapeSlashes(p, i + 1);
      assert p[i..][1..] == p[i + 1..];
    }
  }

  /** A `/` in the pattern is escaped in the text of the RegExp. */
  lemma SourceExample(p: string)
    requires p == "a/b"
    ensures Source(p) == "a\\/b"
  {
    assert Escape(p, 3, false) == "";
    assert Escape(p, 2, false) == "b";
    assert Escape(p, 1, false) == "\\/b";
    assert Escape(p, 0, false) == "a\\/b";
  }

  /** String(v): the ToString conversion. An array is joined with ",", its
      null and undefined elements giving empty text. */
  function ToStr(v: Value, dateText: int -> string): string {
    match v
    case Null => "null"
    case Undef => "undefined"
    case Bool(b) => if b then "true" else "false"
    case Num(n) => NumberText(n)
    case Str(s) => s
    case Arr(items) =>
      Join(seq(|items|, i requires 0 <= i < |items| =>
        if items[i].Null? || items[i].Undef? then "" else ToStr(items[i], dateText)), ",")
    case Obj(_) => "[object Object]"
    case Date(t) => dateText(t)
    case Regex(p, f) => "/" + Source(p) + "/" + CanonicalFlags(f)
  }

  /** How Array.prototype.join renders one element. */
  function ElemText(v: Value, dateText: int -> string): string {
    if v.Null? || v.Undef? then "" else ToStr(v, dateText)
  }
}
