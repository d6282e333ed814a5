/** `trim` (index.js:88-96) and `transform` (index.js:99-112): walks over a
    nested value that rewrite its string leaves slot by slot. The source
    overwrites `obj[key]` in place; here each walk returns the rewritten
    node, and a slot walk is a loop over the node's slots. */
module Walkers {
  import opened Values
  import opened Text
  import opened Patterns

  // ---------------------------------------------------------------------------
  // Reference definitions: a map over the string leaves at any depth

  /** `v` with every string leaf `s`, at any depth, replaced by `f(s)`;
      keys, order and every other leaf stay. */
  function MapLeaves(v: Value, f: string -> Value): Value {
    match v
    case Str(s) => f(s)
    case Arr(items) => Arr(seq(|items|, i requires 0 <= i < |items| => MapLeaves(items[i], f)))
    case Obj(fields) =>
      Obj(seq(|fields|, i requires 0 <= i < |fields| => Field(fields[i].key, MapLeaves(fields[i].val, f))))
    case _ => v
  }

  /** Every string leaf of `v`, at any depth, satisfies `p`. */
  predicate AllLeaves(v: Value, p: string -> bool) {
    match v
    case Str(s) => p(s)
    case Arr(items) => forall i :: 0 <= i < |items| ==> AllLeaves(items[i], p)
    case Obj(fields) => forall i :: 0 <= i < |fields| ==> AllLeaves(fields[i].val, p)
    case _ => true
  }

  /** The shape of `v`: its string leaves emptied, all else kept. */
  function Shape(v: Value): Value {
    MapLeaves(v, s => Str(""))
  }

  /** A container whose slots hold the mapped slots of `v` is the map of `v`. */
  lemma RebuildIsMap(v: Value, ks: seq<Value>, f: string -> Value)
    requires IsContainer(v) && |ks| == |Kids(v)|
    requires forall i :: 0 <= i < |ks| ==> ks[i] == MapLeaves(Kids(v)[i], f)
    ensures Rebuild(v, ks) == MapLeaves(v, f)
  {
    if v.Arr? {
      assert Rebuild(v, ks).items == MapLeaves(v, f).items;
    } else {
      var r, m := Rebuild(v, ks), MapLeaves(v, f);
      assert |r.fields| == |m.fields|;
      forall i | 0 <= i < |ks| ensures r.fields[i] == m.fields[i] {
      }
    }
  }

  lemma AllLeavesKids(v: Value, p: string -> bool)
    requires IsContainer(v)
    ensures AllLeaves(v, p) <==> forall i :: 0 <= i < |Kids(v)| ==> AllLeaves(Kids(v)[i], p)
  {
    if v.Obj? {
      assert AllLeaves(v, p) == forall i :: 0 <= i < |v.fields| ==> AllLeaves(v.fields[i].val, p);
      assert forall i :: 0 <= i < |Kids(v)| ==> Kids(v)[i] == v.fields[i].val;
    } else {
      var K := Kids(v);
      assert K == v.items;
      assert AllLeaves(v, p) == forall i :: 0 <= i < |K| ==> AllLeaves(K[i], p);
    }
  }

  /** Mapping twice is mapping once with the second map applied to each
      result of the first. */
  lemma {:induction false} MapLeavesCompose(v: Value, f: string -> Value, g: string -> Value)
    ensures MapLeaves(MapLeaves(v, f), g) == MapLeaves(v, s => MapLeaves(f(s), g))
  {
    var h := s => MapLeaves(f(s), g);
    match v
    case Arr(items) =>
      forall i | 0 <= i < |items| ensures MapLeaves(MapLeaves(items[i], f), g) == MapLeaves(items[i], h) {
        MapLeavesCompose(items[i], f, g);
      }
    case Obj(fields) =>
      forall i | 0 <= i < |fields|
        ensures MapLeaves(MapLeaves(fields[i].val, f), g) == MapLeaves(fields[i].val, h)
      {
        MapLeavesCompose(fields[i].val, f, g);
      }
    case _ =>
  }

  /** Maps that agree on every string agree on every value. */
  lemma {:induction false} MapLeavesExt(v: Value, f: string -> Value, g: string -> Value)
    requires forall s :: f(s) == g(s)
    ensures MapLeaves(v, f) == MapLeaves(v, g)
  {
    match v
    case Arr(items) =>
      forall i | 0 <= i < |items| ensures MapLeaves(items[i], f) == MapLeaves(items[i], g) {
        MapLeavesExt(items[i], f, g);
      }
    case Obj(fields) =>
      forall i | 0 <= i < |fields| ensures MapLeaves(fields[i].val, f) == MapLeaves(fields[i].val, g) {
        MapLeavesExt(fields[i].val, f, g);
      }
    case _ =>
  }

  /** After a map, every string leaf comes from some `f(s)`. */
  lemma {:induction false} MapLeavesAll(v: Value, f: string -> Value, p: string -> bool)
    requires forall s :: AllLeaves(f(s), p)
    ensures AllLeaves(MapLeaves(v, f), p)
  {
    match v
    case Arr(items) =>
      forall i | 0 <= i < |items| ensures AllLeaves(MapLeaves(items[i], f), p) {
        MapLeavesAll(items[i], f, p);
      }
    case Obj(fields) =>
      forall i | 0 <= i < |fields| ensures AllLeaves(MapLeaves(fields[i].val, f), p) {
        MapLeavesAll(fields[i].val, f, p);
      }
    case _ =>
  }

  // ---------------------------------------------------------------------------
  // trim (index.js:88-96)

  /** `typeof v === 'object'`: null, arrays, plain objects, dates, regexps. */
  predicate IsObjectType(v: Value) {
    v.Null? || v.Arr? || v.Obj? || v.Date? || v.Regex?
  }

  /** What `trim` makes of a string slot. */
  function TrimLeaf(s: string): Value {
    Str(Trim(s))
  }

  /** The value passed to `trim`, after the call: an array or object has
      every string leaf at any depth trimmed. Anything else is unchanged:
      null, dates and regexps have no enumerable keys, and writes to a
      string primitive's indices are dropped. */
  function TrimNode(v: Value): Value {
    if IsContainer(v) then MapLeaves(v, TrimLeaf) else v
  }

  /** `trim(node)`: visits the slots in `for…in` order, trims string slots
      and recurses into object-typed ones. */
  method TrimWalk(node: Value) returns (r: Value)
    ensures r == TrimNode(node)
    decreases node
  {
    if !IsContainer(node) {
      return node;
    }
    var slots := Kids(node);
    var k := 0;
    while k < |slots|
      invariant 0 <= k <= |slots| == |Kids(node)|
      invariant forall i :: k <= i < |slots| ==> slots[i] == Kids(node)[i]
      invariant forall i :: 0 <= i < k ==> slots[i] == MapLeaves(Kids(node)[i], TrimLeaf)
    {
      var c := slots[k];
      if IsObjectType(c) {
        var t := TrimWalk(c);
        slots := slots[k := t];
      } else if c.Str? {
        slots := slots[k := Str(Trim(c.s))];
      }
      k := k + 1;
    }
    RebuildIsMap(node, slots, TrimLeaf);
    r := Rebuild(node, slots);
  }

  /** A map that sends strings to strings keeps the shape. */
  lemma MapLeavesShape(v: Value, f: string -> Value)
    requires forall s :: f(s).Str?
    ensures Shape(MapLeaves(v, f)) == Shape(v)
  {
    var e := s => Str("");
    MapLeavesCompose(v, f, e);
    MapLeavesExt(v, s => MapLeaves(f(s), e), e);
  }

  /** A map that is the identity on its own results is idempotent. */
  lemma MapLeavesTwice(v: Value, f: string -> Value)
    requires forall s :: MapLeaves(f(s), f) == f(s)
    ensures MapLeaves(MapLeaves(v, f), f) == MapLeaves(v, f)
  {
    MapLeavesCompose(v, f, f);
    MapLeavesExt(v, s => MapLeaves(f(s), f), f);
  }

  /** `trim` keeps keys, order and structure, and leaves no string leaf with
      surrounding whitespace. */
  lemma TrimKeepsShape(v: Value)
    requires IsContainer(v)
    ensures Shape(TrimNode(v)) == Shape(v)
    ensures AllLeaves(TrimNode(v), IsTrimmed)
  {
    MapLeavesShape(v, TrimLeaf);
    MapLeavesAll(v, TrimLeaf, IsTrimmed);
  }

  /** Trimming twice is trimming once. */
  lemma TrimTwice(v: Value)
    ensures TrimNode(TrimNode(v)) == TrimNode(v)
  {
    if IsContainer(v) {
      forall s ensures MapLeaves(TrimLeaf(s), TrimLeaf) == TrimLeaf(s) {
        TrimIdempotent(s);
      }
      MapLeavesTwice(v, TrimLeaf);
    }
  }

  // ---------------------------------------------------------------------------
  // transform (index.js:99-112)

  /** A walk's result and whether it ran to the end: `ok` is false when a
      RegExp constructor threw, and `result` is then the state the walk
      left behind (slots before the failure rewritten, the failing slot
      trimmed, later slots untouched). */
  datatype Walked<T> = Walked(result: T, ok: bool)

  /** `node[k] && typeof node[k] === 'object'`: everything object-typed but null. */
  predicate IsTruthyObject(v: Value) {
    v.Arr? || v.Obj? || v.Date? || v.Regex?
  }

  /** A slot after the walk of lines 100-111 visited it, for a given
      rewrite of string slots: truthy objects are walked, strings
      rewritten, the rest left. */
  function WalkSlot(c: Value, leaf: string -> Walked<Value>): Walked<Value>
    decreases c, |Kids(c)| + 2
  {
    if IsTruthyObject(c) then WalkNode(c, leaf)
    else if c.Str? then leaf(c.s)
    else Walked(c, true)
  }

  /** A node after the walk: a container has its slots walked in order;
      anything else has no slot the walk can change. */
  function WalkNode(v: Value, leaf: string -> Walked<Value>): Walked<Value>
    decreases v, |Kids(v)| + 1
  {
    if IsContainer(v) then
      var w := WalkPrefix(v, |Kids(v)|, leaf);
      Walked(Rebuild(v, w.result), w.ok)
    else Walked(v, true)
  }

  /** The slots of `v` once the walk has visited the first `k` of them: each
      visited slot rewritten; after a slot that throws nothing more is
      visited, so later slots keep their old values. */
  function WalkPrefix(v: Value, k: nat, leaf: string -> Walked<Value>): (w: Walked<seq<Value>>)
    requires k <= |Kids(v)|
    ensures |w.result| == |Kids(v)|
    decreases v, k
  {
    if k == 0 then Walked(Kids(v), true)
    else
      var p := WalkPrefix(v, k - 1, leaf);
      if !p.ok then p
      else
        var c := WalkSlot(Kids(v)[k - 1], leaf);
        Walked(p.result[k - 1 := c.result], c.ok)
  }

  /** After the first `k` slots the walk is still going exactly when none of
      them threw; it has then replaced each of them by its rewrite and left
      the rest alone. */
  lemma {:induction false} WalkPrefixOk(v: Value, k: nat, leaf: string -> Walked<Value>)
    requires k <= |Kids(v)|
    ensures WalkPrefix(v, k, leaf).ok <==> forall i :: 0 <= i < k ==> WalkSlot(Kids(v)[i], leaf).ok
    ensures WalkPrefix(v, k, leaf).ok ==>
      (forall i :: 0 <= i < k ==> WalkPrefix(v, k, leaf).result[i] == WalkSlot(Kids(v)[i], leaf).result) &&
      (forall i :: k <= i < |Kids(v)| ==> WalkPrefix(v, k, leaf).result[i] == Kids(v)[i])
  {
    if k > 0 {
      WalkPrefixOk(v, k - 1, leaf);
    }
  }

  /** While the walk is going, the next slot still holds its old value, and
      visiting it stores its rewrite there. */
  lemma WalkPrefixNext(v: Value, k: nat, leaf: string -> Walked<Value>)
    requires k < |Kids(v)| && WalkPrefix(v, k, leaf).ok
    ensures WalkPrefix(v, k, leaf).result[k] == Kids(v)[k]
    ensures var c := WalkSlot(Kids(v)[k], leaf);
      WalkPrefix(v, k + 1, leaf) == Walked(WalkPrefix(v, k, leaf).result[k := c.result], c.ok)
  {
    WalkPrefixOk(v, k, leaf);
  }

  /** Once a slot has thrown, visiting further slots changes nothing. */
  lemma {:induction false} WalkPrefixStops(v: Value, k: nat, n: nat, leaf: string -> Walked<Value>)
    requires k <= n <= |Kids(v)|
    requires !WalkPrefix(v, k, leaf).ok
    ensures WalkPrefix(v, n, leaf) == WalkPrefix(v, k, leaf)
    decreases n - k
  {
    if k < n {
      WalkPrefixStops(v, k, n - 1, leaf);
    }
  }

  /** The walk completes exactly when every string leaf's rewrite
      completes; it is then the map that rewrites each string leaf by
      itself, keeping keys and order. */
  lemma {:induction false} WalkSlotIsMap(c: Value, leaf: string -> Walked<Value>)
    ensures WalkSlot(c, leaf).ok <==> AllLeaves(c, s => leaf(s).ok)
    ensures WalkSlot(c, leaf).ok ==> WalkSlot(c, leaf).result == MapLeaves(c, s => leaf(s).result)
    decreases c
  {
    var okf := s => leaf(s).ok;
    var f := s => leaf(s).result;
    if IsContainer(c) {
      var K := Kids(c);
      var w := WalkPrefix(c, |K|, leaf);
      forall i | 0 <= i < |K|
        ensures WalkSlot(K[i], leaf).ok <==> AllLeaves(K[i], okf)
        ensures WalkSlot(K[i], leaf).ok ==> WalkSlot(K[i], leaf).result == MapLeaves(K[i], f)
      {
        WalkSlotIsMap(K[i], leaf);
      }
      AllLeavesKids(c, okf);
      WalkPrefixOk(c, |K|, leaf);
      if w.ok {
        RebuildIsMap(c, w.result, f);
      }
    }
  }

  /** Whether `new RegExp(pattern, flags)` returns: a flag may not repeat,
      and the host's compiler must accept the pattern. */
  predicate RegExpAccepts(lit: RegLiteral, host: Host) {
    (|lit.flags| < 2 || lit.flags[0] != lit.flags[1]) && host.patternOk(lit.pattern)
  }

  /** `Date.parse(t)` is truthy: a number other than 0 (NaN is falsy). */
  predicate ParsesTruthy(t: string, host: Host) {
    host.dateParse(t).Some? && host.dateParse(t).value != 0
  }

  /** A string slot after lines 104-109: trimmed, then a date when it
      matches regexp.date and parses to a truthy time, else a RegExp when
      it is a `%r` literal, else the trimmed text. */
  function TransformString(s: string, host: Host): Walked<Value> {
    Revive(Trim(s), host)
  }

  /** Lines 105-109 on the trimmed text `t`. */
  function Revive(t: string, host: Host): Walked<Value> {
    if IsDate(t) && ParsesTruthy(t, host) then Walked(Date(host.dateParse(t).value), true)
    else match MatchReg(t)
      case None => Walked(Str(t), true)
      case Some(lit) =>
        if RegExpAccepts(lit, host) then Walked(Regex(lit.pattern, lit.flags), true)
        else Walked(Str(t), false)
  }

  /** What a string slot becomes: a Date exactly when its trimmed text
      matches regexp.date and parses to a truthy time; otherwise a RegExp
      exactly when the trimmed text is a `%r` literal the constructor
      accepts; otherwise the trimmed text. Only a rejected `%r` literal
      throws. */
  lemma TransformStringCases(s: string, host: Host)
    ensures var w, t := TransformString(s, host), Trim(s);
      && (w.result.Date? <==> IsDate(t) && ParsesTruthy(t, host))
      && (w.result.Date? ==> w.result.time == host.dateParse(t).value)
      && (w.result.Regex? <==> w.ok && !w.result.Date? && MatchReg(t).Some?)
      && (w.result.Regex? ==> w.result == Regex(MatchReg(t).value.pattern, MatchReg(t).value.flags))
      && (w.result.Str? ==> w.result.s == t)
      && (w.result.Date? || w.result.Regex? || w.result.Str?)
      && (!w.ok <==> !(IsDate(t) && ParsesTruthy(t, host)) && MatchReg(t).Some? && !RegExpAccepts(MatchReg(t).value, host))
  {
  }

  /** The string rewrite of `transform` as a function value. */
  function LeafStep(host: Host): string -> Walked<Value> {
    s => TransformString(s, host)
  }

  /** The value passed to `transform`, after the call. A top-level scalar is
      not changed (a string's one-character slots match neither pattern,
      and writes to them are dropped). */
  function TransformNode(v: Value, host: Host): Walked<Value> {
    WalkNode(v, LeafStep(host))
  }

  /** `transform(node)`: visits the slots in `for…in` order; recurses into
      objects, rewrites strings; `ok` is false when a RegExp constructor
      threw, and `r` is then the partly rewritten node. */
  method TransformWalk(node: Value, host: Host) returns (r: Value, ok: bool)
    ensures Walked(r, ok) == TransformNode(node, host)
    decreases node, 0
  {
    if !IsContainer(node) {
      return node, true;
    }
    ghost var leaf := LeafStep(host);
    var slots := Kids(node);
    ok := true;
    var k := 0;
    while k < |slots| && ok
      invariant 0 <= k <= |Kids(node)|
      invariant Walked(slots, ok) == WalkPrefix(node, k, leaf)
    {
      WalkPrefixNext(node, k, leaf);
      var t;
      t, ok := TransformSlot(slots[k], host);
      slots := slots[k := t];
      k := k + 1;
    }
    if !ok {
      WalkPrefixStops(node, k, |Kids(node)|, leaf);
    }
    r := Rebuild(node, slots);
  }

  /** Lines 103-110 on one slot: a truthy object is walked, a string
      rewritten, anything else left as it is. */
  method TransformSlot(c: Value, host: Host) returns (t: Value, ok: bool)
    ensures Walked(t, ok) == WalkSlot(c, LeafStep(host))
    decreases c, 1
  {
    if IsTruthyObject(c) {
      t, ok := TransformWalk(c, host);
    } else if c.Str? {
      var w := TransformString(c.s, host);
      t, ok := w.result, w.ok;
    } else {
      t, ok := c, true;
    }
  }

  /** Whether a string leaf is rewritten without an exception. */
  function LeafOk(host: Host): string -> bool {
    s => TransformString(s, host).ok
  }

  /** What a string leaf becomes when nothing throws. */
  function LeafResult(host: Host): string -> Value {
    s => TransformString(s, host).result
  }

  /** `transform` on an array or object completes exactly when no string
      leaf at any depth is a `%r` literal the RegExp constructor rejects;
      it then rewrites each string leaf by itself and keeps keys and order. */
  lemma TransformNodeIsMap(v: Value, host: Host)
    requires IsContainer(v)
    ensures TransformNode(v, host).ok <==> AllLeaves(v, LeafOk(host))
    ensures TransformNode(v, host).ok ==> TransformNode(v, host).result == MapLeaves(v, LeafResult(host))
  {
    var leaf := LeafStep(host);
    WalkSlotIsMap(v, leaf);
    MapLeavesExt(v, s => leaf(s).result, LeafResult(host));
    AllLeavesExt(v, s => leaf(s).ok, LeafOk(host));
  }

  lemma {:induction false} AllLeavesExt(v: Value, p: string -> bool, q: string -> bool)
    requires forall s :: p(s) == q(s)
    ensures AllLeaves(v, p) == AllLeaves(v, q)
  {
    match v
    case Arr(items) =>
      forall i | 0 <= i < |items| ensures AllLeaves(items[i], p) == AllLeaves(items[i], q) {
        AllLeavesExt(items[i], p, q);
      }
    case Obj(fields) =>
      forall i | 0 <= i < |fields| ensures AllLeaves(fields[i].val, p) == AllLeaves(fields[i].val, q) {
        AllLeavesExt(fields[i].val, p, q);
      }
    case _ =>
  }

  /** `transform` trims first, so a trimmed leaf transforms as the original did. */
  lemma TransformStringOfTrim(s: string, host: Host)
    ensures TransformString(Trim(s), host) == TransformString(s, host)
  {
    TrimIdempotent(s);
  }

  /** A leaf `transform` left as a string is trimmed and is left alone by a
      second `transform`; dates and regexps are not strings. */
  lemma TransformStringStable(s: string, host: Host)
    requires TransformString(s, host).ok
    ensures MapLeaves(TransformString(s, host).result, LeafResult(host)) == TransformString(s, host).result
    ensures AllLeaves(TransformString(s, host).result, IsTrimmed)
    ensures AllLeaves(TransformString(s, host).result, LeafOk(host))
  {
    var w := TransformString(s, host);
    TransformStringCases(s, host);
    if w.result.Str? {
      var t := Trim(s);
      TransformStringOfTrim(s, host);
      assert TransformString(t, host) == w;
    }
  }

  /** When every leaf of `v` transforms without throwing, every leaf of the
      result is trimmed and transforms to itself. */
  lemma {:induction false} OkLeavesStable(v: Value, host: Host)
    requires AllLeaves(v, LeafOk(host))
    ensures AllLeaves(MapLeaves(v, LeafResult(host)), IsTrimmed)
    ensures AllLeaves(MapLeaves(v, LeafResult(host)), LeafOk(host))
    ensures MapLeaves(v, s => MapLeaves(LeafResult(host)(s), LeafResult(host))) == MapLeaves(v, LeafResult(host))
  {
    match v
    case Str(s) =>
      TransformStringStable(s, host);
    case Arr(items) =>
      forall i | 0 <= i < |items| ensures StableLeaves(items[i], host) {
        OkLeavesStable(items[i], host);
      }
      ArrStable(items, host);
    case Obj(fields) =>
      forall i | 0 <= i < |fields| ensures StableLeaves(fields[i].val, host) {
        OkLeavesStable(fields[i].val, host);
      }
      ObjStable(fields, host);
    case _ =>
  }

  /** The three facts `OkLeavesStable` states about `v`, as one predicate. */
  predicate StableLeaves(v: Value, host: Host) {
    var f := LeafResult(host);
    AllLeaves(MapLeaves(v, f), IsTrimmed) &&
    AllLeaves(MapLeaves(v, f), LeafOk(host)) &&
    MapLeaves(v, s => MapLeaves(f(s), f)) == MapLeaves(v, f)
  }

  /** An array whose items are stable is stable. */
  lemma ArrStable(items: seq<Value>, host: Host)
    requires forall i :: 0 <= i < |items| ==> StableLeaves(items[i], host)
    ensures StableLeaves(Arr(items), host)
  {
    var f := LeafResult(host);
    var g := s => MapLeaves(f(s), f);
    assert MapLeaves(Arr(items), g).items == MapLeaves(Arr(items), f).items;
  }

  /** An object whose field values are stable is stable. */
  lemma ObjStable(fields: seq<Field>, host: Host)
    requires forall i :: 0 <= i < |fields| ==> StableLeaves(fields[i].val, host)
    ensures StableLeaves(Obj(fields), host)
  {
    var f := LeafResult(host);
    var g := s => MapLeaves(f(s), f);
    assert MapLeaves(Obj(fields), g).fields == MapLeaves(Obj(fields), f).fields;
  }

  /** After a `transform` that completes, no string leaf has surrounding
      whitespace, and a second `transform` completes and changes nothing. */
  lemma TransformTwice(v: Value, host: Host)
    requires IsContainer(v) && TransformNode(v, host).ok
    ensures AllLeaves(TransformNode(v, host).result, IsTrimmed)
    ensures TransformNode(TransformNode(v, host).result, host) == TransformNode(v, host)
  {
    var f := LeafResult(host);
    TransformNodeIsMap(v, host);
    var w := MapLeaves(v, f);
    OkLeavesStable(v, host);
    assert IsContainer(w);
    TransformNodeIsMap(w, host);
    MapLeavesCompose(v, f, f);
  }

  // ---------------------------------------------------------------------------
  // transform on one-field objects, as in test/extras.test.js

  /** An object with one slot: the walk rewrites that slot alone. */
  lemma WalkOneField(key: string, c: Value, leaf: string -> Walked<Value>)
    ensures WalkNode(Obj([Field(key, c)]), leaf) == Walked(Obj([Field(key, WalkSlot(c, leaf).result)]), WalkSlot(c, leaf).ok)
  {
    var v := Obj([Field(key, c)]);
    var w := WalkSlot(c, leaf);
    assert Kids(v) == [c];
    assert WalkPrefix(v, 0, leaf) == Walked([c], true);
    assert [c][0 := w.result] == [w.result];
    assert WalkPrefix(v, 1, leaf) == Walked([w.result], w.ok);
    var r := Rebuild(v, [w.result]);
    assert r.fields[0] == Field(key, w.result);
    assert r.fields == [Field(key, w.result)];
  }

  /** An object with one string slot: the slot becomes the rewrite of its
      string, and the walk completes exactly when that rewrite does. */
  lemma TransformOneField(key: string, s: string, host: Host)
    ensures TransformNode(Obj([Field(key, Str(s))]), host) ==
      Walked(Obj([Field(key, TransformString(s, host).result)]), TransformString(s, host).ok)
  {
    WalkOneField(key, Str(s), LeafStep(host));
  }

  /** A trimmed string that is neither a date nor a `%r` literal stays as it is. */
  lemma TransformKeepsPlain(key: string, s: string, host: Host)
    requires IsTrimmed(s) && |s| < 17 && (|s| < 3 || s[..3] != "%r/")
    ensures TransformNode(Obj([Field(key, Str(s))]), host) == Walked(Obj([Field(key, Str(s))]), true)
  {
    TrimOfTrimmed(s);
    if IsDate(s) {
      DateLength(s);
    }
    TransformOneField(key, s, host);
  }

  /** A trimmed string that is neither a date nor a `%r` literal stays as it
      is, whatever its length. */
  lemma TransformKeepsText(key: string, s: string, host: Host)
    requires IsTrimmed(s) && !IsDate(s) && MatchReg(s).None?
    ensures TransformNode(Obj([Field(key, Str(s))]), host) == Walked(Obj([Field(key, Str(s))]), true)
  {
    TrimOfTrimmed(s);
    TransformOneField(key, s, host);
  }

  /** A trimmed date that `Date.parse` gives a truthy time becomes a Date. */
  lemma TransformKeepsDate(key: string, s: string, host: Host)
    requires IsTrimmed(s) && IsDate(s) && ParsesTruthy(s, host)
    ensures TransformNode(Obj([Field(key, Str(s))]), host) == Walked(Obj([Field(key, Date(host.dateParse(s).value))]), true)
  {
    TrimOfTrimmed(s);
    TransformOneField(key, s, host);
  }

  /** A trimmed `%r` literal that is no date and that the RegExp
      constructor accepts becomes a RegExp. */
  lemma TransformKeepsRegex(key: string, s: string, lit: RegLiteral, host: Host)
    requires IsTrimmed(s) && !IsDate(s) && MatchReg(s) == Some(lit) && RegExpAccepts(lit, host)
    ensures TransformNode(Obj([Field(key, Str(s))]), host) == Walked(Obj([Field(key, Regex(lit.pattern, lit.flags))]), true)
  {
    TrimOfTrimmed(s);
    TransformOneField(key, s, host);
  }

  /** `'something'`, `'Hello! 2'`, `'5'`, `'null'`, `'true'` and `'false'`
      stay strings. */
  lemma TransformExamplesPlain(key: string, s: string, host: Host)
    requires s in ["something", "Hello! 2", "5", "null", "true", "false"]
    ensures TransformNode(Obj([Field(key, Str(s))]), host) == Walked(Obj([Field(key, Str(s))]), true)
  {
    assert s[0] != ' ' && s[|s| - 1] != ' ';
    assert !IsSpace(s[0]) && !IsSpace(s[|s| - 1]);
    TransformKeepsPlain(key, s, host);
  }

  /** A timestamp starts with a digit and ends with its zone, so it is trimmed. */
  lemma DateTrimmed(s: string)
    requires s in ["2020-11-02T08:22:31.017Z", "2020-11-02T08:22:31Z"]
    ensures IsTrimmed(s)
  {
    if s == "2020-11-02T08:22:31.017Z" {
      assert !IsSpace(s[0]) && !IsSpace(s[|s| - 1]);
    } else {
      assert !IsSpace(s[0]) && !IsSpace(s[|s| - 1]);
    }
  }

  /** `'2020-11-02T08:22:31.017Z'` and `'2020-11-02T08:22:31Z'` become
      Dates, for a host whose `Date.parse` gives them a truthy time. */
  lemma TransformExamplesDate(key: string, s: string, host: Host)
    requires s in ["2020-11-02T08:22:31.017Z", "2020-11-02T08:22:31Z"]
    requires ParsesTruthy(s, host)
    ensures TransformNode(Obj([Field(key, Str(s))]), host) == Walked(Obj([Field(key, Date(host.dateParse(s).value))]), true)
  {
    DateExamples();
    DateTrimmed(s);
    TransformKeepsDate(key, s, host);
  }

  /** `'%r/hello/'` becomes the RegExp `/hello/`, for a host whose RegExp
      compiler accepts `hello`. */
  lemma TransformExampleRegex(key: string, host: Host)
    requires host.patternOk("hello")
    ensures TransformNode(Obj([Field(key, Str("%r/hello/"))]), host) == Walked(Obj([Field(key, Regex("hello", ""))]), true)
  {
    var s := "%r/hello/";
    assert !IsSpace(s[0]) && !IsSpace(s[|s| - 1]);
    MatchRegExample();
    if IsDate(s) {
      DateLength(s);
    }
    TransformKeepsRegex(key, s, RegLiteral("hello", ""), host);
  }

  /** `'2022-03-18T08:24:34'` and `'2024-07-21T13:59:15.307'` have no zone,
      so `regexp.date` rejects them and they stay strings. */
  lemma TransformExamplesZoneless(key: string, s: string, host: Host)
    requires s in ["2022-03-18T08:24:34", "2024-07-21T13:59:15.307"]
    ensures TransformNode(Obj([Field(key, Str(s))]), host) == Walked(Obj([Field(key, Str(s))]), true)
  {
    ZonelessNotDate();
    StampPlain(s);
    TransformKeepsText(key, s, host);
  }

  /** A zone-less timestamp starts and ends with a digit, so it is trimmed
      and not a `%r` literal. */
  lemma StampPlain(s: string)
    requires s in ["2022-03-18T08:24:34", "2024-07-21T13:59:15.307"]
    ensures IsTrimmed(s) && MatchReg(s).None?
  {
    assert IsDigit(s[0]) && IsDigit(s[|s| - 1]);
    NoRegLiteral(s);
  }

  /** `transform` on anything but an array or object changes nothing and
      gives back nothing new: `transform('hello')` leaves `'hello'` as it was. */
  lemma TransformScalar(v: Value, host: Host)
    requires !IsContainer(v)
    ensures TransformNode(v, host) == Walked(v, true)
  {
  }
}
