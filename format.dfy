/** `format` (index.js:59-70): each argument in turn replaces the first
    `%s` still in the string, through String.prototype.replace with a
    string pattern, whose replacement text expands `$` patterns. */
module Format {
  import opened Values
  import opened Text

  /** A `%s` starts at `j`. */
  predicate PlaceholderAt(s: string, j: int) {
    0 <= j && j + 1 < |s| && s[j] == '%' && s[j + 1] == 's'
  }

  predicate HasPlaceholder(s: string) {
    exists j | 0 <= j < |s| :: PlaceholderAt(s, j)
  }

  /** The first `%s` at or after `i`. */
  function FindPlaceholder(s: string, i: nat): (r: Option<nat>)
    ensures r.None? <==> forall j :: i <= j ==> !PlaceholderAt(s, j)
    ensures r.Some? ==>
      i <= r.value && PlaceholderAt(s, r.value) && forall j :: i <= j < r.value ==> !PlaceholderAt(s, j)
    decreases |s| - i
  {
    if i + 1 >= |s| then None
    else if s[i] == '%' && s[i + 1] == 's' then assert PlaceholderAt(s, i); Some(i)
    else FindPlaceholder(s, i + 1)
  }

  /** The replacement text `rep` as String.prototype.replace inserts it for
      a match of `%s` with `before` in front and `after` behind: `$$` gives
      `$`, `$&` the match, `` $` `` the text before it, `$'` the text after
      it. With a string pattern there are no capture groups, so every other
      `$` stays as it is. */
  function Expand(rep: string, before: string, after: string): string
    decreases |rep|
  {
    if rep == [] then []
    else if rep[0] == '$' && |rep| >= 2 && rep[1] in "$&`'" then
      (match rep[1]
       case '$' => "$"
       case '&' => "%s"
       case '`' => before
       case _ => after) + Expand(rep[2..], before, after)
    else [rep[0]] + Expand(rep[1..], before, after)
  }

  /** Without a `$`, the replacement text is inserted as it is. */
  lemma {:induction false} ExpandPlain(rep: string, before: string, after: string)
    requires '$' !in rep
    ensures Expand(rep, before, after) == rep
    decreases |rep|
  {
    if rep != [] {
      ExpandPlain(rep[1..], before, after);
      assert rep == [rep[0]] + rep[1..];
    }
  }

  /** `s.replace('%s', rep)`. */
  function ReplaceFirst(s: string, rep: string): string {
    match FindPlaceholder(s, 0)
    case None => s
    case Some(i) => s[..i] + Expand(rep, s[..i], s[i + 2..]) + s[i + 2..]
  }

  /** A string without `%s` is left alone. */
  lemma ReplaceNoPlaceholder(s: string, rep: string)
    requires !HasPlaceholder(s)
    ensures ReplaceFirst(s, rep) == s
  {
  }

  /** The search runs past positions that hold no `%`. */
  lemma {:induction false} FindSkip(t: string, j: nat, k: nat)
    requires j <= k <= |t|
    requires forall i :: j <= i < k ==> t[i] != '%'
    ensures FindPlaceholder(t, j) == FindPlaceholder(t, k)
    decreases k - j
  {
    if j < k {
      FindSkip(t, j + 1, k);
    }
  }

  /** With no `%` before the first `%s`, that `%s` is the one replaced, and
      the replacement text is expanded against the text on either side. */
  lemma ReplaceAfter(p: string, q: string, rep: string)
    requires '%' !in p
    ensures ReplaceFirst(p + "%s" + q, rep) == p + Expand(rep, p, q) + q
  {
    var s := p + "%s" + q;
    forall i | 0 <= i < |p| ensures s[i] != '%' {
      assert s[i] == p[i];
    }
    FindSkip(s, 0, |p|);
    assert s[|p|] == '%' && s[|p| + 1] == 's';
    assert FindPlaceholder(s, 0) == Some(|p|);
    assert s[..|p|] == p;
    assert s[|p| + 2..] == q;
  }

  /** With, in addition, no `$` in the replacement, the `%s` is swapped for
      the replacement text. */
  lemma ReplaceAfterPlain(p: string, q: string, rep: string)
    requires '%' !in p && '$' !in rep
    ensures ReplaceFirst(p + "%s" + q, rep) == p + rep + q
  {
    ReplaceAfter(p, q, rep);
    ExpandPlain(rep, p, q);
  }

  lemma Concat3(a: string, b: string, c: string)
    ensures a + (b + c) == (a + b) + c
  {
  }

  /** What `format` splices in for one argument (index.js:62-66): an
      array's elements joined with ", " (null and undefined as empty text),
      a plain object's entries as "key: value" joined with ", ", anything
      else through String(). */
  function ArgText(v: Value, dateText: int -> string): string {
    match v
    case Arr(items) =>
      Join(seq(|items|, i requires 0 <= i < |items| => ElemText(items[i], dateText)), ", ")
    case Obj(fields) =>
      Join(seq(|fields|, i requires 0 <= i < |fields| =>
        fields[i].key + ": " + ElemText(fields[i].val, dateText)), ", ")
    case _ => ToStr(v, dateText)
  }

  /** The string `format` returns: the arguments replace one `%s` each, in
      order, every one searching the string the previous ones left. */
  function FormatSpec(str: string, args: seq<Value>, dateText: int -> string): string
    decreases |args|
  {
    if args == [] then str
    else FormatSpec(ReplaceFirst(str, ArgText(args[0], dateText)), args[1..], dateText)
  }

  /** `format(str, ...args)`. */
  method Format(str: string, args: seq<Value>, dateText: int -> string) returns (r: string)
    ensures r == FormatSpec(str, args, dateText)
  {
    r := str;
    for i := 0 to |args|
      invariant FormatSpec(r, args[i..], dateText) == FormatSpec(str, args, dateText)
    {
      var val := ArgText(args[i], dateText);
      assert args[i..][1..] == args[i + 1..];
      r := ReplaceFirst(r, val);
    }
    assert args[|args|..] == [];
  }

  /** A string without `%s` comes back unchanged, whatever the arguments. */
  lemma {:induction false} FormatNoPlaceholder(str: string, args: seq<Value>, dateText: int -> string)
    requires !HasPlaceholder(str)
    ensures FormatSpec(str, args, dateText) == str
    decreases |args|
  {
    if args != [] {
      ReplaceNoPlaceholder(str, ArgText(args[0], dateText));
      FormatNoPlaceholder(str, args[1..], dateText);
    }
  }

  /** The argument texts, in order. */
  function Texts(args: seq<Value>, dateText: int -> string): (ts: seq<string>)
    ensures |ts| == |args| && forall k :: 0 <= k < |args| ==> ts[k] == ArgText(args[k], dateText)
  {
    seq(|args|, k requires 0 <= k < |args| => ArgText(args[k], dateText))
  }

  /** The pieces of a template between its placeholders, with the texts
      put in the gaps from the left; gaps past the last text keep their
      `%s`, and texts past the last gap are dropped. */
  function Fill(pieces: seq<string>, texts: seq<string>): string
    requires |pieces| >= 1
    decreases |texts|
  {
    if |pieces| == 1 || texts == [] then Join(pieces, "%s")
    else pieces[0] + texts[0] + Fill(pieces[1..], texts[1..])
  }

  /** `format` behind a `%`-free prefix: the k-th argument lands in the
      k-th `%s` after it. */
  lemma {:induction false} FormatFillsFrom(acc: string, pieces: seq<string>, args: seq<Value>, dateText: int -> string)
    requires '%' !in acc && |pieces| >= 1
    requires forall k :: 0 <= k < |pieces| ==> '%' !in pieces[k]
    requires forall k :: 0 <= k < |args| ==>
      '%' !in ArgText(args[k], dateText) && '$' !in ArgText(args[k], dateText)
    ensures FormatSpec(acc + Join(pieces, "%s"), args, dateText) == acc + Fill(pieces, Texts(args, dateText))
    decreases |args|
  {
    var ts := Texts(args, dateText);
    if |pieces| == 1 {
      var x := acc + pieces[0];
      assert '%' !in x;
      forall j | 0 <= j < |x| ensures !PlaceholderAt(x, j) {
        assert x[j] in x;
      }
      FormatNoPlaceholder(x, args, dateText);
    } else if args != [] {
      var rest := Join(pieces[1..], "%s");
      var p := acc + pieces[0];
      var t0 := ts[0];
      assert Join(pieces, "%s") == (pieces[0] + "%s") + rest;
      Concat3(acc, pieces[0] + "%s", rest);
      Concat3(acc, pieces[0], "%s");
      ReplaceAfterPlain(p, rest, t0);
      var acc' := p + t0;
      FormatFillsFrom(acc', pieces[1..], args[1..], dateText);
      assert Texts(args[1..], dateText) == ts[1..];
      var f := Fill(pieces[1..], ts[1..]);
      Concat3(acc, pieces[0] + t0, f);
      Concat3(acc, pieces[0], t0);
    }
  }

  /** When neither the template's text nor any argument text holds a `%`
      or a `$`, the k-th argument lands in the k-th `%s`; spare
      placeholders stay, spare arguments are ignored. */
  lemma FormatFills(pieces: seq<string>, args: seq<Value>, dateText: int -> string)
    requires |pieces| >= 1
    requires forall k :: 0 <= k < |pieces| ==> '%' !in pieces[k]
    requires forall k :: 0 <= k < |args| ==>
      '%' !in ArgText(args[k], dateText) && '$' !in ArgText(args[k], dateText)
    ensures FormatSpec(Join(pieces, "%s"), args, dateText) == Fill(pieces, Texts(args, dateText))
  {
    FormatFillsFrom("", pieces, args, dateText);
    assert "" + Join(pieces, "%s") == Join(pieces, "%s");
    assert "" + Fill(pieces, Texts(args, dateText)) == Fill(pieces, Texts(args, dateText));
  }

  /** One argument whose text has no `$`, for a template whose first `%s`
      follows a `%`-free prefix: the text takes that `%s`'s place. */
  lemma FormatOne(str: string, arg: Value, p: string, q: string, dateText: int -> string)
    requires str == p + "%s" + q && '%' !in p && '$' !in ArgText(arg, dateText)
    ensures FormatSpec(str, [arg], dateText) == p + ArgText(arg, dateText) + q
  {
    ReplaceAfterPlain(p, q, ArgText(arg, dateText));
    assert FormatSpec(str, [arg], dateText) == FormatSpec(ReplaceFirst(str, ArgText(arg, dateText)), [], dateText);
  }

  // The cases the repository's own tests spell out. Each takes its
  // template and arguments as parameters fixed by `requires`, so that the
  // proof goes through the general lemmas above.

  /** No argument, or no placeholder, leaves the string alone. */
  lemma FormatExamplesPlain(str: string, args: seq<Value>, dateText: int -> string)
    requires str == "hello" && args == [Num(5)]
    ensures FormatSpec(str, [], dateText) == "hello"
    ensures FormatSpec(str, args, dateText) == "hello"
  {
    forall j | 0 <= j < |str| ensures !PlaceholderAt(str, j) {
    }
    FormatNoPlaceholder(str, args, dateText);
  }

  /** One number for one placeholder. */
  lemma FormatExampleNumber(str: string, args: seq<Value>, dateText: int -> string)
    requires str == "hello %s" && args == [Num(5)]
    ensures FormatSpec(str, args, dateText) == "hello 5"
  {
    var pieces := ["hello ", ""];
    assert ArgText(args[0], dateText) == "5";
    FormatFills(pieces, args, dateText);
    assert Join(pieces, "%s") == str;
    assert Texts(args, dateText) == ["5"];
  }

  /** Two arguments for a template with two placeholders. */
  lemma FormatTwo(p: string, q: string, r: string, a: Value, b: Value, dateText: int -> string)
    requires '%' !in p && '%' !in q
    requires '%' !in ArgText(a, dateText) && '$' !in ArgText(a, dateText) && '$' !in ArgText(b, dateText)
    ensures FormatSpec(p + "%s" + q + "%s" + r, [a, b], dateText) ==
      p + ArgText(a, dateText) + q + ArgText(b, dateText) + r
  {
    var ta, tb := ArgText(a, dateText), ArgText(b, dateText);
    var t := q + "%s" + r;
    Concat3(p + "%s", q + "%s", r);
    Concat3(p + "%s", q, "%s");
    ReplaceAfterPlain(p, t, ta);
    var m := p + ta + q;
    Concat3(p + ta, q + "%s", r);
    Concat3(p + ta, q, "%s");
    ReplaceAfterPlain(m, r, tb);
    var x := p + "%s" + q + "%s" + r;
    assert [a, b][1..] == [b];
    assert FormatSpec(x, [a, b], dateText) == FormatSpec(m + "%s" + r, [b], dateText);
    assert FormatSpec(m + "%s" + r, [b], dateText) == FormatSpec(m + tb + r, [], dateText);
  }

  /** Too few arguments: the spare placeholder stays. */
  lemma FormatExampleSpare(str: string, args: seq<Value>, dateText: int -> string)
    requires str == "hello %s %s" && args == [Num(5)]
    ensures FormatSpec(str, args, dateText) == "hello 5 %s"
  {
    assert ArgText(args[0], dateText) == "5";
    assert str == "hello " + "%s" + " %s";
    FormatOne(str, args[0], "hello ", " %s", dateText);
  }

  /** Two arguments fill two placeholders in order. */
  lemma FormatExampleTwo(str: string, args: seq<Value>, dateText: int -> string)
    requires str == "hello %s %s" && args == [Num(5), Str("hello")]
    ensures FormatSpec(str, args, dateText) == "hello " + "5" + " " + "hello" + ""
  {
    assert ArgText(args[0], dateText) == "5";
    assert ArgText(args[1], dateText) == "hello";
    assert str == "hello " + "%s" + " " + "%s" + "";
    FormatTwo("hello ", " ", "", args[0], args[1], dateText);
  }

  lemma ArrayTextExample(v: Value, dateText: int -> string)
    requires v == Arr([Num(1), Num(2), Num(3)])
    ensures ArgText(v, dateText) == "1, 2, 3"
  {
    var items := v.items;
    var elems := seq(|items|, i requires 0 <= i < |items| => ElemText(items[i], dateText));
    assert elems == ["1", "2", "3"];
    assert Join(elems[1..], ", ") == "2" + ", " + Join(elems[2..], ", ") == "2, 3";
  }

  /** An array argument is joined with ", ". */
  lemma FormatExampleArray(str: string, args: seq<Value>, dateText: int -> string)
    requires str == "hello %s" && args == [Arr([Num(1), Num(2), Num(3)])]
    ensures FormatSpec(str, args, dateText) == "hello " + "1, 2, 3"
  {
    ArrayTextExample(args[0], dateText);
    assert str == "hello " + "%s" + "";
    FormatOne(str, args[0], "hello ", "", dateText);
  }

  lemma ObjectTextExample(v: Value, dateText: int -> string)
    requires v == Obj([Field("name", Str("hello")), Field("key", Str("a"))])
    ensures ArgText(v, dateText) == "name: hello, key: a"
  {
    var fields := v.fields;
    var entries := seq(|fields|, i requires 0 <= i < |fields| =>
      fields[i].key + ": " + ElemText(fields[i].val, dateText));
    assert entries[0] == "name: hello";
    assert entries[1] == "key: a";
    assert entries == ["name: hello", "key: a"];
    assert Join(entries, ", ") == "name: hello" + ", " + "key: a";
  }

  /** A plain object argument becomes its "key: value" entries joined with ", ". */
  lemma FormatExampleObject(str: string, args: seq<Value>, dateText: int -> string)
    requires str == "hello %s" && args == [Obj([Field("name", Str("hello")), Field("key", Str("a"))])]
    ensures FormatSpec(str, args, dateText) == "hello " + "name: hello, key: a"
  {
    ObjectTextExample(args[0], dateText);
    assert str == "hello " + "%s" + "";
    FormatOne(str, args[0], "hello ", "", dateText);
  }

  /** Booleans are spelled out. */
  lemma FormatExampleBoolean(str: string, b: bool, dateText: int -> string)
    requires str == "hello %s"
    ensures FormatSpec(str, [Bool(b)], dateText) == "hello " + (if b then "true" else "false")
  {
    assert ArgText(Bool(b), dateText) == if b then "true" else "false";
    assert str == "hello " + "%s" + "";
    FormatOne(str, Bool(b), "hello ", "", dateText);
  }

  /** Argument text is not escaped: a `%s` that one argument brings in is
      the next argument's target. */
  lemma FormatQuirkNested(p: string, q: string, b: Value, dateText: int -> string)
    requires '%' !in p && '$' !in ArgText(b, dateText)
    ensures FormatSpec(p + "%s" + q, [Str("%s"), b], dateText) == p + ArgText(b, dateText) + q
  {
    var s := p + "%s" + q;
    ReplaceAfterPlain(p, q, "%s");
    assert [Str("%s"), b][1..] == [b];
    assert FormatSpec(s, [Str("%s"), b], dateText) == FormatSpec(s, [b], dateText);
    FormatOne(s, b, p, q, dateText);
  }

  lemma ExpandSpecials(before: string, after: string)
    ensures Expand("$&", before, after) == "%s"
    ensures Expand("$`$'", before, after) == before + after
  {
    assert "$`$'"[2..] == "$'";
    assert Expand("$'", before, after) == after;
  }

  /** Argument text is not escaped either for `$` patterns: `$&` puts the
      `%s` back, `` $` `` and `$'` copy the text on either side of it. */
  lemma FormatQuirkDollar(p: string, q: string, dateText: int -> string)
    requires '%' !in p
    ensures FormatSpec(p + "%s" + q, [Str("$&")], dateText) == p + "%s" + q
    ensures FormatSpec(p + "%s" + q, [Str("$`$'")], dateText) == p + (p + q) + q
  {
    var s := p + "%s" + q;
    ExpandSpecials(p, q);
    ReplaceAfter(p, q, "$&");
    ReplaceAfter(p, q, "$`$'");
    assert FormatSpec(s, [Str("$&")], dateText) == FormatSpec(ReplaceFirst(s, "$&"), [], dateText);
    assert FormatSpec(s, [Str("$`$'")], dateText) == FormatSpec(ReplaceFirst(s, "$`$'"), [], dateText);
  }
}
