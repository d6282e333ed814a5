/** The validators `isEmail`, `isId`, `isRegExp`, `isDate` and `isBoolean`
    (index.js:34-56) and `convert` (index.js:115-125). Every validator
    first turns its argument into text with String(). */
module Coerce {
  import opened Values
  import opened Text
  import opened Patterns

  /** `!!v`: the ToBoolean conversion. */
  predicate Truthy(v: Value) {
    match v
    case Null => false
    case Undef => false
    case Bool(b) => b
    case Num(n) => n != 0
    case Str(s) => s != ""
    case _ => true
  }

  /** The strings `isBoolean` turns down before looking at truthiness. */
  const FalseWords: seq<string> := ["false", "null", "NaN", "undefined", "0"]

  /** `isBoolean(v)`: `Array.prototype.includes` compares with SameValueZero,
      so only a string can equal one of the words. */
  predicate IsBoolean(v: Value)
    ensures IsBoolean(v) ==> Truthy(v)
    ensures v.Str? && v.s in FalseWords ==> !IsBoolean(v)
  {
    if v.Str? && v.s in FalseWords then false else Truthy(v)
  }

  /** On strings, isBoolean holds exactly for the non-empty ones outside the
      five words; on any other value it is plain truthiness. */
  lemma IsBooleanCases(v: Value)
    ensures v.Str? ==> (IsBoolean(v) <==> v.s != "" && v.s !in FalseWords)
    ensures !v.Str? ==> (IsBoolean(v) <==> Truthy(v))
    ensures IsBoolean(v) ==> Truthy(v)
  {
  }

  /** The text of a number is never one of the five words unless the number is 0. */
  lemma NumberTextWord(n: int)
    ensures NumberText(n) != ""
    ensures NumberText(n) in FalseWords <==> n == 0
  {
    var t := NumberText(n);
    if n < 0 {
      assert t[0] == '-';
    } else {
      assert '0' <= t[0] <= '9';
    }
  }

  /** A primitive value and its String() text agree on isBoolean: `null`,
      `undefined`, `false` and `0` all spell one of the five words. */
  lemma {:induction false} IsBooleanOfText(v: Value, dateText: int -> string)
    requires v.Null? || v.Undef? || v.Bool? || v.Num? || v.Str?
    ensures IsBoolean(Str(ToStr(v, dateText))) == IsBoolean(v)
  {
    if v.Num? {
      NumberTextWord(v.n);
    }
  }

  /** `isEmail(str)`. */
  predicate IsEmail(v: Value, dateText: int -> string) {
    IsEmailText(ToStr(v, dateText))
  }

  /** `isId(str)`. */
  predicate IsId(v: Value, dateText: int -> string) {
    IsIdText(ToStr(v, dateText))
  }

  /** `isRegExp(str)`: the text starts with a `%r` literal. */
  predicate IsRegExp(v: Value, dateText: int -> string) {
    MatchReg(ToStr(v, dateText)).Some?
  }

  /** isRegExp holds exactly when the text starts with `%r/`, a pattern of
      one or more characters on one line, `/`, and up to two `i`/`g` flags:
      a match has that shape, and every text of that shape matches. */
  lemma IsRegExpShape(v: Value, dateText: int -> string)
    ensures IsRegExp(v, dateText) ==>
      var lit := MatchReg(ToStr(v, dateText)).value;
      RegShape(ToStr(v, dateText), lit.pattern, lit.flags)
    ensures forall pattern, flags :: RegShape(ToStr(v, dateText), pattern, flags) ==> IsRegExp(v, dateText)
  {
    var s := ToStr(v, dateText);
    forall pattern, flags | RegShape(s, pattern, flags) ensures IsRegExp(v, dateText) {
      MatchRegIsGreedy(s, pattern, flags);
    }
  }

  /** `isDate(str)`. */
  predicate IsDateValue(v: Value, dateText: int -> string) {
    IsDate(ToStr(v, dateText))
  }

  /** Nothing is both an id and an email address: an id has no `@`. */
  lemma IdIsNotEmail(v: Value, dateText: int -> string)
    ensures !(IsId(v, dateText) && IsEmail(v, dateText))
  {
  }

  /** `convert(v, type)`. The numeric and date branches call the host's
      parseInt, parseFloat and Date constructor. */
  function Convert(v: Value, kind: string, host: Host): (r: Value)
    ensures kind == "string" || kind == "id" ==> r == Str(ToStr(v, host.dateText))
    ensures kind == "boolean" ==> r == Bool(IsBoolean(v))
    ensures kind !in ["string", "id", "integer", "float", "date", "boolean"] ==> r == v
  {
    match kind
    case "string" => Str(ToStr(v, host.dateText))
    case "id" => Str(ToStr(v, host.dateText))
    case "integer" => host.parseInt(v)
    case "float" => host.parseFloat(v)
    case "date" => host.newDate(v)
    case "boolean" => Bool(IsBoolean(v))
    case _ => v
  }

  /** A RegExp made from `%r/a/b/` converts to the text `/a\/b/`: its
      source escapes the `/` inside the pattern. */
  lemma ConvertRegexSlash(host: Host)
    ensures Convert(Regex("a/b", ""), "string", host) == Str("/a\\/b/")
  {
    SourceExample("a/b");
  }

  /** Converting to 'string' or 'boolean' twice is converting once. */
  lemma ConvertTwice(v: Value, kind: string, host: Host)
    requires kind in ["string", "id", "boolean"]
    ensures Convert(Convert(v, kind, host), kind, host) == Convert(v, kind, host)
  {
  }

  /** A primitive converted to a string and then to a boolean gives what
      converting it to a boolean directly gives. */
  lemma ConvertStringThenBoolean(v: Value, host: Host)
    requires v.Null? || v.Undef? || v.Bool? || v.Num? || v.Str?
    ensures Convert(Convert(v, "string", host), "boolean", host) == Convert(v, "boolean", host)
  {
    IsBooleanOfText(v, host.dateText);
  }
}
