/** `dir` (index.js:158-162) and `tree` (index.js:170-186) over a file
    system given as a value: a directory is its listing, in the order
    `readdirSync` returns it; anything that is not a directory to `lstat`
    (a regular file, a symbolic link, a device) is a leaf. */
module Files {
  import opened Values
  import opened Text
  import opened Paths

  // ---------------------------------------------------------------------------
  // dir

  /** The run of ASCII digits `name` starts with: what `/^\d+/g` matches. */
  function LeadingDigits(name: string): (r: string)
    ensures |r| <= |name| && r == name[..|r|]
    ensures forall i :: 0 <= i < |r| ==> '0' <= r[i] <= '9'
    ensures |r| < |name| ==> !('0' <= name[|r|] <= '9')
  {
    if name != [] && '0' <= name[0] <= '9' then [name[0]] + LeadingDigits(name[1..]) else []
  }

  /** The number the comparator subtracts for `name`: the value of its
      leading digits, or None when it has none and the name itself is
      subtracted, which gives NaN. */
  function SortKey(name: string): Option<nat> {
    var d := LeadingDigits(name);
    if d == [] then None else Some(DigitsValue(d))
  }

  /** A name has a key exactly when it starts with a digit. */
  lemma SortKeyCases(name: string)
    ensures SortKey(name).Some? <==> name != [] && '0' <= name[0] <= '9'
  {
  }

  /** Whether the comparator lets `a` stay in front of `b`: `a - b <= 0`,
      a NaN difference counting as 0, as Array.prototype.sort reads it. */
  predicate InOrder(a: string, b: string) {
    match (SortKey(a), SortKey(b))
    case (Some(x), Some(y)) => x <= y
    case _ => true
  }

  /** `x` put in front of the first name it may stay in front of. */
  function Insert(x: string, sorted: seq<string>): seq<string> {
    if sorted == [] || InOrder(x, sorted[0]) then [x] + sorted
    else [sorted[0]] + Insert(x, sorted[1..])
  }

  /** The listing sorted with the comparator: a stable insertion sort. */
  function SortNames(names: seq<string>): seq<string> {
    if names == [] then [] else Insert(names[0], SortNames(names[1..]))
  }

  /** `dir(path)` for the listing `names` of `path`. */
  function Dir(path: string, names: seq<string>): seq<string> {
    var sorted := SortNames(names);
    seq(|sorted|, i requires 0 <= i < |sorted| => PathJoin(path, sorted[i]))
  }

  predicate AllKeyed(names: seq<string>) {
    forall i :: 0 <= i < |names| ==> SortKey(names[i]).Some?
  }

  /** Ascending by leading number. */
  predicate Ascending(names: seq<string>) {
    forall i, j :: 0 <= i < j < |names| ==> InOrder(names[i], names[j])
  }

  /** The names whose leading number is `k`, in order. */
  function WithKey(names: seq<string>, k: nat): seq<string> {
    if names == [] then []
    else (if SortKey(names[0]) == Some(k) then [names[0]] else []) + WithKey(names[1..], k)
  }

  lemma {:induction false} InsertPerm(x: string, sorted: seq<string>)
    ensures multiset(Insert(x, sorted)) == multiset{x} + multiset(sorted)
    decreases |sorted|
  {
    if sorted != [] && !InOrder(x, sorted[0]) {
      InsertPerm(x, sorted[1..]);
      assert sorted == [sorted[0]] + sorted[1..];
    }
  }

  /** Sorting keeps every name, as often as it occurs. */
  lemma {:induction false} SortPerm(names: seq<string>)
    ensures multiset(SortNames(names)) == multiset(names)
    decreases |names|
  {
    if names != [] {
      SortPerm(names[1..]);
      InsertPerm(names[0], SortNames(names[1..]));
      assert names == [names[0]] + names[1..];
    }
  }

  lemma {:induction false} InsertAscending(x: string, sorted: seq<string>)
    requires SortKey(x).Some? && AllKeyed(sorted) && Ascending(sorted)
    ensures AllKeyed(Insert(x, sorted)) && Ascending(Insert(x, sorted))
    decreases |sorted|
  {
    if sorted != [] && !InOrder(x, sorted[0]) {
      var y, tail := sorted[0], sorted[1..];
      SortedTail(sorted);
      InsertAscending(x, tail);
      InsertPerm(x, tail);
      var rest := Insert(x, tail);
      assert Insert(x, sorted) == [y] + rest;
      forall z | z in rest ensures InOrder(y, z) {
        assert z in multiset(rest);
        if z != x {
          assert z in multiset(tail);
          var m :| 0 <= m < |tail| && tail[m] == z;
          assert sorted[m + 1] == z;
        }
      }
      ConsAscending(y, rest);
    } else {
      ConsAscending(x, sorted);
    }
  }

  /** A keyed name in front of an ascending list it may stay in front of. */
  lemma ConsAscending(y: string, rest: seq<string>)
    requires SortKey(y).Some? && AllKeyed(rest) && Ascending(rest)
    requires forall z :: z in rest ==> InOrder(y, z)
    ensures AllKeyed([y] + rest) && Ascending([y] + rest)
  {
    var r := [y] + rest;
    forall i, j | 0 <= i < j < |r| ensures InOrder(r[i], r[j]) {
      assert r[j] == rest[j - 1];
      if i > 0 {
        assert r[i] == rest[i - 1];
      }
    }
    forall i | 0 <= i < |r| ensures SortKey(r[i]).Some? {
      if i > 0 {
        assert r[i] == rest[i - 1];
      }
    }
  }

  /** When every name starts with digits, the result is in ascending order
      of leading number. */
  lemma {:induction false} SortAscending(names: seq<string>)
    requires AllKeyed(names)
    ensures Ascending(SortNames(names))
    ensures AllKeyed(SortNames(names))
    decreases |names|
  {
    if names != [] {
      SortAscending(names[1..]);
      InsertAscending(names[0], SortNames(names[1..]));
    }
  }

  lemma {:induction false} InsertWithKey(x: string, sorted: seq<string>, k: nat)
    requires SortKey(x).Some? && AllKeyed(sorted) && Ascending(sorted)
    ensures WithKey(Insert(x, sorted), k) ==
      (if SortKey(x) == Some(k) then [x] else []) + WithKey(sorted, k)
    decreases |sorted|
  {
    if sorted != [] && !InOrder(x, sorted[0]) {
      var y, tail := sorted[0], sorted[1..];
      var rest := Insert(x, tail);
      assert Insert(x, sorted) == [y] + rest;
      SortedTail(sorted);
      InsertWithKey(x, tail, k);
      assert ([y] + rest)[1..] == rest;
      assert WithKey([y] + rest, k) == (if SortKey(y) == Some(k) then [y] else []) + WithKey(rest, k);
      assert WithKey(sorted, k) == (if SortKey(y) == Some(k) then [y] else []) + WithKey(tail, k);
    }
  }

  lemma SortedTail(sorted: seq<string>)
    requires sorted != [] && AllKeyed(sorted) && Ascending(sorted)
    ensures AllKeyed(sorted[1..]) && Ascending(sorted[1..])
  {
    forall i, j | 0 <= i < j < |sorted| - 1 ensures InOrder(sorted[1..][i], sorted[1..][j]) {
      assert sorted[1..][i] == sorted[i + 1] && sorted[1..][j] == sorted[j + 1];
    }
  }

  /** The sort is stable: names with the same leading number keep the order
      of the listing. */
  lemma {:induction false} SortStable(names: seq<string>, k: nat)
    requires AllKeyed(names)
    ensures WithKey(SortNames(names), k) == WithKey(names, k)
    decreases |names|
  {
    if names != [] {
      SortStable(names[1..], k);
      SortAscending(names[1..]);
      InsertWithKey(names[0], SortNames(names[1..]), k);
    }
  }

  /** `dir` gives one path per listed name, each the directory path joined
      with a name of the listing, every name used as often as it is listed;
      with leading numbers throughout, the names come in ascending order. */
  lemma DirEntries(path: string, names: seq<string>)
    ensures |Dir(path, names)| == |names|
    ensures forall i :: 0 <= i < |names| ==> Dir(path, names)[i] == PathJoin(path, SortNames(names)[i])
    ensures multiset(SortNames(names)) == multiset(names)
    ensures AllKeyed(names) ==> Ascending(SortNames(names))
  {
    SortPerm(names);
    assert |SortNames(names)| == |multiset(SortNames(names))| == |names|;
    if AllKeyed(names) {
      SortAscending(names);
    }
  }

  // ---------------------------------------------------------------------------
  // tree

  datatype Node = Directory(entries: seq<Entry>) | Leaf
  datatype Entry = Entry(name: string, node: Node)

  /** The first entry of a listing called `name`. */
  function FindEntry(entries: seq<Entry>, name: string): (r: Option<Entry>)
    ensures r.Some? ==> r.value in entries && r.value.name == name
    ensures r.None? ==> forall i :: 0 <= i < |entries| ==> entries[i].name != name
  {
    if entries == [] then None
    else if entries[0].name == name then Some(entries[0])
    else FindEntry(entries[1..], name)
  }

  /** The node reached from `node` by the segments `stack`. */
  function Walk(node: Node, stack: seq<string>): Option<Node>
    decreases |stack|
  {
    if stack == [] then Some(node)
    else match node
      case Leaf => None
      case Directory(entries) =>
        match FindEntry(entries, stack[0])
        case None => None
        case Some(e) => Walk(e.node, stack[1..])
  }

  /** The segments an absolute path names. */
  function StackOf(path: string): seq<string> {
    Resolve([], SplitOn(path, '/'), true)
  }

  /** What an absolute path names in the file system `fs` (its root
      directory), as `existsSync` and `readdirSync` see it: nothing for a
      relative path, nor for a leaf named with a trailing `/`. */
  function Lookup(fs: Node, path: string): (r: Option<Node>)
    ensures r.Some? ==> path != "" && path[0] == '/'
    ensures r.Some? && r.value.Leaf? ==> path[|path| - 1] != '/'
  {
    if path == "" || path[0] != '/' then None
    else
      var n := Walk(fs, StackOf(path));
      if n.Some? && n.value.Leaf? && path[|path| - 1] == '/' then None else n
  }

  /** What `glob(path, files)` pushes for one listing entry, each name
      joined onto its directory's path with `join`. */
  function EntryPaths(join: (string, string) -> string, path: string, e: Entry): seq<string>
    decreases e.node, if e.node.Directory? then |e.node.entries| + 2 else 0
  {
    if e.node.Directory? then LeafPaths(join, join(path, e.name), e.node)
    else [join(path, e.name)]
  }

  /** What `glob` pushes for the first `k` entries of `dir`. */
  function EntriesPaths(join: (string, string) -> string, path: string, dir: Node, k: nat): seq<string>
    requires dir.Directory? && k <= |dir.entries|
    decreases dir, k
  {
    if k == 0 then [] else EntriesPaths(join, path, dir, k - 1) + EntryPaths(join, path, dir.entries[k - 1])
  }

  lemma AppendAssoc(a: seq<string>, b: seq<string>, c: seq<string>)
    ensures a + b + c == a + (b + c)
  {
  }

  /** One more entry visited: what the accumulator holds grows by that entry's paths. */
  lemma CollectStep(join: (string, string) -> string, path: string, dir: Node, i: nat,
                    start: seq<string>, before: seq<string>, after: seq<string>)
    requires dir.Directory? && i < |dir.entries|
    requires before == start + EntriesPaths(join, path, dir, i)
    requires after == before + EntryPaths(join, path, dir.entries[i])
    ensures after == start + EntriesPaths(join, path, dir, i + 1)
  {
    EntriesStep(join, path, dir, i);
    AppendAssoc(start, EntriesPaths(join, path, dir, i), EntryPaths(join, path, dir.entries[i]));
  }

  /** All entries visited: the paths of the whole directory. */
  lemma CollectDone(join: (string, string) -> string, path: string, dir: Node)
    requires dir.Directory?
    ensures LeafPaths(join, path, dir) == EntriesPaths(join, path, dir, |dir.entries|)
  {
  }

  lemma EntriesStep(join: (string, string) -> string, path: string, dir: Node, i: nat)
    requires dir.Directory? && i < |dir.entries|
    ensures EntriesPaths(join, path, dir, i + 1) == EntriesPaths(join, path, dir, i) + EntryPaths(join, path, dir.entries[i])
  {
  }

  /** What `glob(path, files)` pushes for the directory `dir`. */
  function LeafPaths(join: (string, string) -> string, path: string, dir: Node): seq<string>
    decreases dir, if dir.Directory? then |dir.entries| + 1 else 0
  {
    if dir.Directory? then EntriesPaths(join, path, dir, |dir.entries|) else []
  }

  /** The accumulator `files` that `glob` shares across its recursive calls. */
  class Collector {
    var files: seq<string>

    constructor()
      ensures files == []
    {
      files := [];
    }

    /** `glob(path, files)`: the directory's entries in listing order, each
        handed to the `forEach` callback. */
    method Glob(path: string, dir: Node)
      requires dir.Directory?
      modifies this
      ensures files == old(files) + LeafPaths(PathJoin, path, dir)
      decreases dir, 0
    {
      var entries := dir.entries;
      ghost var start := files;
      var i := 0;
      while i < |entries|
        invariant 0 <= i <= |entries|
        invariant files == start + EntriesPaths(PathJoin, path, dir, i)
      {
        ghost var before := files;
        Visit(path, entries[i]);
        CollectStep(PathJoin, path, dir, i, start, before, files);
        i := i + 1;
      }
      CollectDone(PathJoin, path, dir);
    }

    /** The `forEach` callback: the entry joined onto `path`; a directory to
        `lstat` is walked, anything else pushed. */
    method Visit(path: string, e: Entry)
      modifies this
      ensures files == old(files) + EntryPaths(PathJoin, path, e)
      decreases e.node, 1
    {
      var subpath := PathJoin(path, e.name);
      if e.node.Directory? {
        Glob(subpath, e.node);
      } else {
        files := files + [subpath];
      }
    }
  }

  // What the flattened list holds.

  /** Every name at every depth is one a listing can hold, and no two
      entries of one listing share a name. */
  predicate WellFormed(node: Node)
    decreases node
  {
    node.Directory? ==>
      (forall i :: 0 <= i < |node.entries| ==>
        PlainName(node.entries[i].name) && WellFormed(node.entries[i].node)) &&
      (forall i, j :: 0 <= i < j < |node.entries| ==> node.entries[i].name != node.entries[j].name)
  }

  /** The names `t` lead from the directory `node`, one listing entry at a
      time, to a leaf. */
  predicate LeafAt(node: Node, t: seq<string>)
    decreases |t|
  {
    node.Directory? && t != [] &&
    exists i | 0 <= i < |node.entries| ::
      node.entries[i].name == t[0] &&
      if |t| == 1 then node.entries[i].node.Leaf? else LeafAt(node.entries[i].node, t[1..])
  }

  /** A path pushed for one entry names a leaf beneath the directory: the
      names `t` from the directory to that leaf. */
  lemma {:induction false} EntrySound(stack: seq<string>, trailing: bool, dir: Node, idx: nat, p: string)
    returns (t: seq<string>)
    requires NormalStack(stack, true) && dir.Directory? && idx < |dir.entries| && WellFormed(dir)
    requires p in EntryPaths(PathJoin, Render(stack, true, trailing), dir.entries[idx])
    ensures LeafAt(dir, t) && NormalStack(stack + t, true) && p == Render(stack + t, true, false)
    decreases dir, 0
  {
    var e := dir.entries[idx];
    JoinSegment(stack, trailing, e.name);
    var sub := stack + [e.name];
    if e.node.Leaf? {
      t := [e.name];
      assert dir.entries[idx].name == t[0];
    } else {
      assert WellFormed(e.node);
      assert p in LeafPaths(PathJoin, Render(sub, true, false), e.node);
      var t' := LeafPathSound(sub, false, e.node, p);
      t := [e.name] + t';
      assert t[1..] == t' && sub + t' == stack + t;
      assert dir.entries[idx].name == t[0] && LeafAt(dir.entries[idx].node, t[1..]);
    }
  }

  /** Every path `glob` pushes names a leaf beneath the directory. */
  lemma {:induction false} LeafPathSound(stack: seq<string>, trailing: bool, dir: Node, p: string)
    returns (t: seq<string>)
    requires NormalStack(stack, true) && dir.Directory? && WellFormed(dir)
    requires p in LeafPaths(PathJoin, Render(stack, true, trailing), dir)
    ensures LeafAt(dir, t) && NormalStack(stack + t, true) && p == Render(stack + t, true, false)
    decreases dir, 1
  {
    var idx := EntriesPick(PathJoin, Render(stack, true, trailing), dir, |dir.entries|, p);
    t := EntrySound(stack, trailing, dir, idx, p);
  }

  /** A path among those pushed for the first `k` entries was pushed for one of them. */
  lemma {:induction false} EntriesPick(join: (string, string) -> string, path: string, dir: Node, k: nat, p: string)
    returns (idx: nat)
    requires dir.Directory? && k <= |dir.entries| && p in EntriesPaths(join, path, dir, k)
    ensures idx < k && p in EntryPaths(join, path, dir.entries[idx])
    decreases k
  {
    if p in EntryPaths(join, path, dir.entries[k - 1]) {
      idx := k - 1;
    } else {
      idx := EntriesPick(join, path, dir, k - 1, p);
    }
  }

  /** A path pushed for one of the first `k` entries is among those pushed for them. */
  lemma {:induction false} EntriesContain(join: (string, string) -> string, path: string, dir: Node, i: nat, k: nat, p: string)
    requires dir.Directory? && i < k <= |dir.entries| && p in EntryPaths(join, path, dir.entries[i])
    ensures p in EntriesPaths(join, path, dir, k)
    decreases k
  {
    if i < k - 1 {
      EntriesContain(join, path, dir, i, k - 1, p);
    }
  }

  /** What is pushed for the first `j` entries is pushed before what follows. */
  lemma {:induction false} EntriesPrefix(join: (string, string) -> string, path: string, dir: Node, j: nat, k: nat)
    requires dir.Directory? && j <= k <= |dir.entries|
    ensures EntriesPaths(join, path, dir, j) <= EntriesPaths(join, path, dir, k)
    decreases k - j
  {
    if j < k {
      EntriesPrefix(join, path, dir, j + 1, k);
      EntriesStep(join, path, dir, j);
    }
  }

  /** The paths beneath one entry form one block of the result, at that
      entry's place in listing order: after those of the entries before it. */
  lemma EntryBlock(join: (string, string) -> string, path: string, dir: Node, k: nat)
    requires dir.Directory? && k < |dir.entries|
    ensures EntriesPaths(join, path, dir, k) + EntryPaths(join, path, dir.entries[k]) <= LeafPaths(join, path, dir)
  {
    EntriesStep(join, path, dir, k);
    EntriesPrefix(join, path, dir, k + 1, |dir.entries|);
  }

  /** Every leaf beneath the directory is among the paths `glob` pushes. */
  lemma {:induction false} LeafPathsComplete(stack: seq<string>, trailing: bool, dir: Node, t: seq<string>)
    requires NormalStack(stack, true) && WellFormed(dir) && LeafAt(dir, t)
    ensures Render(stack + t, true, false) in LeafPaths(PathJoin, Render(stack, true, trailing), dir)
    decreases |t|
  {
    var path := Render(stack, true, trailing);
    var i :| 0 <= i < |dir.entries| && dir.entries[i].name == t[0] &&
      if |t| == 1 then dir.entries[i].node.Leaf? else LeafAt(dir.entries[i].node, t[1..]);
    var e := dir.entries[i];
    JoinSegment(stack, trailing, e.name);
    var sub := stack + [e.name];
    if |t| == 1 {
      assert t == [e.name];
      assert EntryPaths(PathJoin, path, e) == [Render(sub, true, false)];
    } else {
      LeafPathsComplete(sub, false, e.node, t[1..]);
      assert sub + t[1..] == stack + t;
    }
    EntriesContain(PathJoin, path, dir, i, |dir.entries|, Render(stack + t, true, false));
  }

  /** In a listing without repeated names, the entry called `name` is the one found. */
  lemma FindUnique(entries: seq<Entry>, i: nat)
    requires i < |entries|
    requires forall a, b :: 0 <= a < b < |entries| ==> entries[a].name != entries[b].name
    ensures FindEntry(entries, entries[i].name) == Some(entries[i])
  {
    if i > 0 {
      FindUnique(entries[1..], i - 1);
    }
  }

  /** Following names `t` that lead to a leaf reaches that leaf. */
  lemma {:induction false} WalkLeaf(dir: Node, t: seq<string>)
    requires WellFormed(dir)
    ensures t != [] && Walk(dir, t) == Some(Leaf) <==> LeafAt(dir, t)
    decreases |t|
  {
    if t != [] && dir.Directory? {
      var es := dir.entries;
      if LeafAt(dir, t) {
        var i :| 0 <= i < |es| && es[i].name == t[0] &&
          if |t| == 1 then es[i].node.Leaf? else LeafAt(es[i].node, t[1..]);
        FindUnique(es, i);
        if |t| > 1 {
          WalkLeaf(es[i].node, t[1..]);
        }
      }
      match FindEntry(es, t[0])
      case None =>
      case Some(e) =>
        var i :| 0 <= i < |es| && es[i] == e;
        if |t| > 1 {
          WalkLeaf(e.node, t[1..]);
        }
        assert Walk(dir, t) == Walk(e.node, t[1..]);
        if Walk(dir, t) == Some(Leaf) {
          assert es[i].name == t[0];
          if |t| == 1 {
            assert t[1..] == [];
            assert es[i].node.Leaf?;
          } else {
            assert LeafAt(es[i].node, t[1..]);
          }
          assert LeafAt(dir, t);
        }
    }
  }

  /** Walking a concatenation is walking one part, then the other. */
  lemma {:induction false} WalkAppend(node: Node, a: seq<string>, b: seq<string>)
    requires Walk(node, a).Some?
    ensures Walk(node, a + b) == Walk(Walk(node, a).value, b)
    decreases |a|
  {
    if a == [] {
      assert a + b == b;
    } else {
      assert (a + b)[0] == a[0] && (a + b)[1..] == a[1..] + b;
      var e := FindEntry(node.entries, a[0]).value;
      WalkAppend(e.node, a[1..], b);
    }
  }

  /** What a well-formed file system holds below its root is well formed. */
  lemma {:induction false} WalkWellFormed(node: Node, a: seq<string>)
    requires WellFormed(node) && Walk(node, a).Some?
    ensures WellFormed(Walk(node, a).value)
    decreases |a|
  {
    if a != [] {
      var e := FindEntry(node.entries, a[0]).value;
      WalkWellFormed(e.node, a[1..]);
    }
  }

  /** The outcome of `tree(root)`: None when `readdirSync` throws because
      the root is not a directory. */
  function TreeSpec(fs: Node, cwd: string, root: string): Option<seq<string>> {
    var path := Abs(cwd, root);
    match Lookup(fs, path)
    case None => Some([])
    case Some(n) => if n.Directory? then Some(LeafPaths(PathJoin, path, n)) else None
  }

  /** Nothing lies beneath what does not exist. */
  lemma {:induction false} WalkMissing(node: Node, a: seq<string>, b: seq<string>)
    requires Walk(node, a).None?
    ensures Walk(node, a + b).None?
    decreases |a|
  {
    assert a != [];
    assert (a + b)[0] == a[0] && (a + b)[1..] == a[1..] + b;
    if node.Directory? && FindEntry(node.entries, a[0]).Some? {
      WalkMissing(FindEntry(node.entries, a[0]).value.node, a[1..], b);
    }
  }

  /** A normal rooted path without a trailing slash names what its segments reach. */
  lemma LookupRendered(fs: Node, stack: seq<string>)
    requires NormalStack(stack, true) && stack != []
    ensures Lookup(fs, Render(stack, true, false)) == Walk(fs, stack)
  {
    var p := Render(stack, true, false);
    RootedParts(stack, false);
    RenderedStack(stack, false);
    JoinEnds(stack, "/");
    assert p[|p| - 1] == stack[|stack| - 1][|stack[|stack| - 1]| - 1];
    assert p[|p| - 1] != '/';
  }

  /** `tree` lists exactly the leaves beneath the root: every path it
      returns names a leaf of the file system (never a directory), and every
      leaf below the root's segments is returned, spelled as a normal path. */
  lemma TreeIsLeaves(fs: Node, cwd: string, root: string)
    requires cwd != "" && cwd[0] == '/' && WellFormed(fs)
    requires TreeSpec(fs, cwd, root).Some?
    ensures forall p :: p in TreeSpec(fs, cwd, root).value ==> Lookup(fs, p) == Some(Leaf)
    ensures forall t :: t != [] && Walk(fs, StackOf(Abs(cwd, root)) + t) == Some(Leaf) ==>
      Render(StackOf(Abs(cwd, root)) + t, true, false) in TreeSpec(fs, cwd, root).value
  {
    var path := Abs(cwd, root);
    var joined := if root == "" then cwd else cwd + "/" + root;
    assert joined != "" && joined[0] == '/';
    var trailing := joined[|joined| - 1] == '/';
    var stack := Resolve([], SplitOn(joined, '/'), true);
    NormalizeVia(joined, true, trailing, SplitOn(joined, '/'));
    NormalizeStack(joined);
    assert path == Render(stack, true, trailing);
    RenderedStack(stack, trailing);
    assert StackOf(path) == stack;
    AbsIsNormal(cwd, root);
    var files := TreeSpec(fs, cwd, root).value;
    match Lookup(fs, path)
    case None =>
      forall t | t != [] ensures Walk(fs, stack + t) != Some(Leaf) {
        if Walk(fs, stack).None? {
          WalkMissing(fs, stack, t);
        } else {
          WalkAppend(fs, stack, t);
        }
      }
    case Some(dir) =>
      assert dir == Walk(fs, stack).value && dir.Directory?;
      WalkWellFormed(fs, stack);
      assert files == LeafPaths(PathJoin, Render(stack, true, trailing), dir);
      forall p | p in files ensures Lookup(fs, p) == Some(Leaf) {
        var t := LeafPathSound(stack, trailing, dir, p);
        LookupRendered(fs, stack + t);
        WalkAppend(fs, stack, t);
        WalkLeaf(dir, t);
      }
      forall t | t != [] && Walk(fs, stack + t) == Some(Leaf)
        ensures Render(stack + t, true, false) in files
      {
        WalkAppend(fs, stack, t);
        WalkLeaf(dir, t);
        LeafPathsComplete(stack, trailing, dir, t);
      }
  }

  /** `tree(root)` run in the working directory `cwd`. */
  method Tree(fs: Node, cwd: string, root: string) returns (r: Option<seq<string>>)
    ensures r == TreeSpec(fs, cwd, root)
    ensures Lookup(fs, Abs(cwd, root)).None? ==> r == Some([])
  {
    var path := Abs(cwd, root);
    var found := Lookup(fs, path);
    if found.None? {
      return Some([]);
    }
    if !found.value.Directory? {
      return None;
    }
    var c := new Collector();
    c.Glob(path, found.value);
    assert c.files == LeafPaths(PathJoin, path, found.value);
    return Some(c.files);
  }
}
