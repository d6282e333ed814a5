/** The POSIX path operations `abs` (index.js:128-130) and `split`
    (index.js:133-135) rely on: `path.normalize`, `path.join` and
    `path.basename` of Node's `path` module for POSIX systems. */
module Paths {
  import opened Values
  import opened Text

  // ---------------------------------------------------------------------------
  // normalize

  /** A segment normalisation drops: empty (from `//` or an end slash) or `.`. */
  predicate Skipped(seg: string) {
    seg == "" || seg == "."
  }

  /** Reads one segment onto the stack of kept segments. `..` takes off the
      last real segment; with none to take off it is kept in a relative
      path and dropped in a rooted one. */
  function Push(stack: seq<string>, seg: string, rooted: bool): seq<string> {
    if Skipped(seg) then stack
    else if seg == ".." then
      if |stack| > 0 && stack[|stack| - 1] != ".." then stack[..|stack| - 1]
      else if rooted then stack
      else stack + [".."]
    else stack + [seg]
  }

  /** The stack after reading `segs` left to right. */
  function Resolve(stack: seq<string>, segs: seq<string>, rooted: bool): seq<string>
    decreases |segs|
  {
    if segs == [] then stack else Resolve(Push(stack, segs[0], rooted), segs[1..], rooted)
  }

  /** What a stack of kept segments looks like: no dropped segment, no `/`,
      `..` only in front of every other segment, and none under the root. */
  predicate NormalStack(stack: seq<string>, rooted: bool) {
    (forall i :: 0 <= i < |stack| ==> !Skipped(stack[i]) && '/' !in stack[i]) &&
    (forall i, j :: 0 <= i < j < |stack| && stack[j] == ".." ==> stack[i] == "..") &&
    (rooted ==> forall i :: 0 <= i < |stack| ==> stack[i] != "..")
  }

  /** The text of a stack: `/` in front of a rooted path, `/` behind when the
      input ended in one, `.` for an empty relative path. */
  function Render(stack: seq<string>, rooted: bool, trailing: bool): string {
    if stack == [] then (if rooted then "/" else if trailing then "./" else ".")
    else (if rooted then "/" else "") + Join(stack, "/") + (if trailing then "/" else "")
  }

  /** `path.normalize(p)`. */
  function Normalize(p: string): string {
    if p == "" then "."
    else
      var rooted := p[0] == '/';
      Render(Resolve([], SplitOn(p, '/'), rooted), rooted, p[|p| - 1] == '/')
  }

  /** Reading a concatenation is reading one part after the other. */
  lemma {:induction false} ResolveAppend(stack: seq<string>, a: seq<string>, b: seq<string>, rooted: bool)
    ensures Resolve(stack, a + b, rooted) == Resolve(Resolve(stack, a, rooted), b, rooted)
    decreases |a|
  {
    if a == [] {
      assert a + b == b;
    } else {
      assert (a + b)[0] == a[0] && (a + b)[1..] == a[1..] + b;
      ResolveAppend(Push(stack, a[0], rooted), a[1..], b, rooted);
    }
  }

  /** Reading one more segment keeps a stack normal. */
  lemma PushNormal(stack: seq<string>, seg: string, rooted: bool)
    requires NormalStack(stack, rooted) && '/' !in seg
    ensures NormalStack(Push(stack, seg, rooted), rooted)
  {
  }

  /** Reading segments free of `/` keeps a stack normal. */
  lemma {:induction false} ResolveNormal(stack: seq<string>, segs: seq<string>, rooted: bool)
    requires NormalStack(stack, rooted)
    requires forall k :: 0 <= k < |segs| ==> '/' !in segs[k]
    ensures NormalStack(Resolve(stack, segs, rooted), rooted)
    decreases |segs|
  {
    if segs != [] {
      PushNormal(stack, segs[0], rooted);
      ResolveNormal(Push(stack, segs[0], rooted), segs[1..], rooted);
    }
  }

  /** Reading the segments of a normal stack pushes every one of them. */
  lemma {:induction false} ResolveKeeps(stack: seq<string>, segs: seq<string>, rooted: bool)
    requires NormalStack(stack + segs, rooted)
    ensures Resolve(stack, segs, rooted) == stack + segs
    decreases |segs|
  {
    if segs != [] {
      var all := stack + segs;
      assert all[|stack|] == segs[0];
      assert Push(stack, segs[0], rooted) == stack + [segs[0]] by {
        if segs[0] == ".." && |stack| > 0 {
          assert all[|stack| - 1] == stack[|stack| - 1];
        }
      }
      assert stack + [segs[0]] + segs[1..] == all;
      ResolveKeeps(stack + [segs[0]], segs[1..], rooted);
    }
  }

  /** A separator at either end adds an empty part at that end. */
  lemma JoinSnoc(parts: seq<string>, sep: string)
    requires |parts| >= 1
    ensures Join(parts + [""], sep) == Join(parts, sep) + sep
  {
    JoinAppend(parts, [""], sep);
  }

  /** The first and last characters of a join of non-empty parts. */
  lemma {:induction false} JoinEnds(parts: seq<string>, sep: string)
    requires |parts| >= 1 && forall k :: 0 <= k < |parts| ==> parts[k] != ""
    ensures Join(parts, sep) != ""
    ensures Join(parts, sep)[0] == parts[0][0]
    ensures Join(parts, sep)[|Join(parts, sep)| - 1] == parts[|parts| - 1][|parts[|parts| - 1]| - 1]
    decreases |parts|
  {
    if |parts| > 1 {
      JoinEnds(parts[1..], sep);
    }
  }

  /** The parts `Render` produces for a non-empty normal stack. */
  function RenderParts(stack: seq<string>, rooted: bool, trailing: bool): seq<string> {
    (if rooted then [""] else []) + stack + (if trailing then [""] else [])
  }

  lemma RenderSplit(stack: seq<string>, rooted: bool, trailing: bool)
    requires stack != [] && NormalStack(stack, rooted)
    ensures SplitOn(Render(stack, rooted, trailing), '/') == RenderParts(stack, rooted, trailing)
  {
    var parts := RenderParts(stack, rooted, trailing);
    var mid := (if rooted then [""] else []) + stack;
    assert Join(mid, "/") == (if rooted then "/" else "") + Join(stack, "/") by {
      if rooted {
        JoinCons("", stack, "/");
        assert "" + "/" == "/";
      } else {
        assert mid == stack;
      }
    }
    assert Join(parts, "/") == Render(stack, rooted, trailing) by {
      if trailing {
        assert parts == mid + [""];
        JoinSnoc(mid, "/");
      } else {
        assert parts == mid;
      }
    }
    JoinSplit(parts, '/');
  }

  /** `Normalize` read through the parts of its input. */
  lemma NormalizeVia(p: string, rooted: bool, trailing: bool, parts: seq<string>)
    requires p != "" && (p[0] == '/' <==> rooted) && (p[|p| - 1] == '/' <==> trailing)
    requires SplitOn(p, '/') == parts
    ensures Normalize(p) == Render(Resolve([], parts, rooted), rooted, trailing)
  {
  }

  /** The three texts of an empty stack are normal. */
  lemma EmptyIsNormal(rooted: bool, trailing: bool)
    ensures Normalize(Render([], rooted, trailing)) == Render([], rooted, trailing)
  {
    if rooted {
      NormalizeVia("/", true, true, ["", ""]);
    } else if trailing {
      var t := "./";
      assert IndexOf(t, '/') == Some(1) by {
        assert t[0] != '/' && t[1] == '/';
      }
      SplitStep(t, '/', 1);
      assert t[..1] == "." && t[2..] == "";
      NormalizeVia("./", false, true, [".", ""]);
    } else {
      NormalizeVia(".", false, false, ["."]);
    }
  }

  /** Reading the parts of a rendered stack gives the stack back. */
  lemma ResolveParts(stack: seq<string>, rooted: bool, trailing: bool)
    requires NormalStack(stack, rooted)
    ensures Resolve([], RenderParts(stack, rooted, trailing), rooted) == stack
  {
    var front: seq<string> := if rooted then [""] else [];
    var back: seq<string> := if trailing then [""] else [];
    assert RenderParts(stack, rooted, trailing) == front + stack + back;
    ResolveAppend([], front + stack, back, rooted);
    ResolveAppend([], front, stack, rooted);
    assert Resolve([], front, rooted) == [] by {
      if rooted {
        assert front[1..] == [];
      }
    }
    assert [] + stack == stack;
    ResolveKeeps([], stack, rooted);
    assert Resolve(stack, back, rooted) == stack by {
      if trailing {
        assert back[1..] == [];
      }
    }
  }

  /** Normalising the text of a normal stack gives back that text. */
  lemma RenderIsNormal(stack: seq<string>, rooted: bool, trailing: bool)
    requires NormalStack(stack, rooted)
    ensures Normalize(Render(stack, rooted, trailing)) == Render(stack, rooted, trailing)
  {
    if stack == [] {
      EmptyIsNormal(rooted, trailing);
    } else {
      var r := Render(stack, rooted, trailing);
      JoinEnds(stack, "/");
      assert r[0] == '/' <==> rooted;
      assert r[|r| - 1] == '/' <==> trailing;
      RenderSplit(stack, rooted, trailing);
      ResolveParts(stack, rooted, trailing);
      NormalizeVia(r, rooted, trailing, RenderParts(stack, rooted, trailing));
    }
  }

  /** The stack `Normalize` renders is normal. */
  lemma NormalizeStack(p: string)
    requires p != ""
    ensures NormalStack(Resolve([], SplitOn(p, '/'), p[0] == '/'), p[0] == '/')
  {
    ResolveNormal([], SplitOn(p, '/'), p[0] == '/');
  }

  /** Normalising twice is normalising once. */
  lemma NormalizeTwice(p: string)
    ensures Normalize(Normalize(p)) == Normalize(p)
  {
    if p == "" {
      assert SplitOn(".", '/') == ["."];
    } else {
      NormalizeStack(p);
      RenderIsNormal(Resolve([], SplitOn(p, '/'), p[0] == '/'), p[0] == '/', p[|p| - 1] == '/');
    }
  }

  // ---------------------------------------------------------------------------
  // join and abs

  /** `path.join(a, b)`: the non-empty arguments joined with `/`, then
      normalised (`.` when both are empty). */
  function PathJoin(a: string, b: string): string {
    Normalize(if a == "" then b else if b == "" then a else a + "/" + b)
  }

  /** `abs(name)`: `path.join(process.cwd(), name)`, the working directory
      given as a parameter. */
  function Abs(cwd: string, name: string): string {
    PathJoin(cwd, name)
  }

  /** Under an absolute working directory the result is absolute, already
      normal, and free of `.` and `..` segments. */
  lemma AbsIsNormal(cwd: string, name: string)
    requires cwd != "" && cwd[0] == '/'
    ensures Abs(cwd, name) != "" && Abs(cwd, name)[0] == '/'
    ensures Normalize(Abs(cwd, name)) == Abs(cwd, name)
    ensures forall k :: 0 <= k < |SplitOn(Abs(cwd, name), '/')| ==>
      SplitOn(Abs(cwd, name), '/')[k] != ".." && SplitOn(Abs(cwd, name), '/')[k] != "."
  {
    var joined := if name == "" then cwd else cwd + "/" + name;
    assert joined[0] == '/';
    var trailing := joined[|joined| - 1] == '/';
    var stack := Resolve([], SplitOn(joined, '/'), true);
    NormalizeTwice(joined);
    NormalizeStack(joined);
    NormalizeVia(joined, true, trailing, SplitOn(joined, '/'));
    RootedParts(stack, trailing);
  }

  /** The parts of a rooted rendering: the empty part before the root, then
      real segments, then perhaps one more empty part. */
  lemma RootedParts(stack: seq<string>, trailing: bool)
    requires NormalStack(stack, true)
    ensures Render(stack, true, trailing) != "" && Render(stack, true, trailing)[0] == '/'
    ensures forall k :: 0 <= k < |SplitOn(Render(stack, true, trailing), '/')| ==>
      SplitOn(Render(stack, true, trailing), '/')[k] != ".." && SplitOn(Render(stack, true, trailing), '/')[k] != "."
  {
    if stack == [] {
      assert SplitOn("/", '/') == ["", ""];
    } else {
      RenderSplit(stack, true, trailing);
    }
  }

  /** A name that starts with `/` is not taken as absolute: it lands under
      the working directory like the same name without the slash. */
  lemma AbsReroots(cwd: string, name: string)
    requires cwd != "" && name != ""
    ensures Abs(cwd, "/" + name) == Abs(cwd, name)
  {
    var j1 := cwd + "/" + ("/" + name);
    var j2 := cwd + "/" + name;
    assert j1 == cwd + ['/'] + ("" + ['/'] + name);
    assert j2 == cwd + ['/'] + name;
    SplitAround(cwd, "" + ['/'] + name, '/');
    SplitAround("", name, '/');
    SplitAround(cwd, name, '/');
    var rooted := cwd[0] == '/';
    assert j1[0] == j2[0] == cwd[0];
    assert j1[|j1| - 1] == j2[|j2| - 1] == name[|name| - 1];
    var a := SplitOn(cwd, '/');
    var b := SplitOn(name, '/');
    assert SplitOn("", '/') == [""];
    assert SplitOn(j1, '/') == a + ([""] + b);
    ResolveAppend([], a, [""] + b, rooted);
    ResolveAppend([], a, b, rooted);
  }

  /** A name a directory listing can hold: not empty, not `.` or `..`, no `/`. */
  predicate PlainName(name: string) {
    !Skipped(name) && name != ".." && '/' !in name
  }

  /** The stack of a normal rooted path. */
  lemma RenderedStack(stack: seq<string>, trailing: bool)
    requires NormalStack(stack, true)
    ensures Resolve([], SplitOn(Render(stack, true, trailing), '/'), true) == stack
  {
    if stack == [] {
      assert SplitOn("/", '/') == ["", ""];
      assert ["", ""][1..] == [""];
      assert Resolve([], [""], true) == [];
    } else {
      RenderSplit(stack, true, trailing);
      ResolveParts(stack, true, trailing);
    }
  }

  /** Joining a plain name onto a normal rooted path adds it as one more
      segment, and drops any trailing slash. */
  lemma JoinSegment(stack: seq<string>, trailing: bool, name: string)
    requires NormalStack(stack, true) && PlainName(name)
    ensures NormalStack(stack + [name], true)
    ensures PathJoin(Render(stack, true, trailing), name) == Render(stack + [name], true, false)
  {
    PushNormal(stack, name, true);
    assert Push(stack, name, true) == stack + [name];
    var path := Render(stack, true, trailing);
    if stack != [] {
      JoinEnds(stack, "/");
    }
    assert path != "" && path[0] == '/';
    var joined := path + "/" + name;
    SplitAround(path, name, '/');
    assert SplitOn(name, '/') == [name];
    RenderedStack(stack, trailing);
    ResolveAppend([], SplitOn(path, '/'), [name], true);
    assert Resolve(stack, [name], true) == stack + [name];
    assert joined[0] == '/' && joined[|joined| - 1] == name[|name| - 1];
    NormalizeVia(joined, true, false, SplitOn(joined, '/'));
  }

  // ---------------------------------------------------------------------------
  // basename and split

  /** The length of `p` once its trailing slashes are dropped. */
  function StripEnd(p: string): (e: nat)
    ensures e <= |p| && (e == 0 || p[e - 1] != '/')
    ensures forall k :: e <= k < |p| ==> p[k] == '/'
  {
    if p != [] && p[|p| - 1] == '/' then StripEnd(p[..|p| - 1]) else |p|
  }

  /** Where the last segment of `t` starts. */
  function SegmentStart(t: string): (b: nat)
    ensures b <= |t| && (b == 0 || t[b - 1] == '/')
    ensures forall k :: b <= k < |t| ==> t[k] != '/'
  {
    if t == [] then 0 else if t[|t| - 1] == '/' then |t| else SegmentStart(t[..|t| - 1])
  }

  /** `path.basename(p)`: the last segment, trailing slashes ignored; empty
      for `""` and for a path made only of slashes. */
  function Basename(p: string): (r: string)
    ensures '/' !in r
  {
    var t := p[..StripEnd(p)];
    t[SegmentStart(t)..]
  }

  /** The basename of a path whose last segment is `name` is `name`. */
  lemma BasenameOfSegment(dir: string, name: string)
    requires name != "" && '/' !in name
    ensures Basename(name) == name
    ensures Basename(dir + "/" + name) == name
  {
    SegmentTail([], name);
    SegmentTail(dir + "/", name);
    assert (dir + "/" + name)[..|dir + "/" + name|] == dir + "/" + name;
    assert name[..|name|] == name;
  }

  /** Characters other than `/` at the end do not move the segment start
      back past a `/`. */
  lemma {:induction false} SegmentTail(t: string, u: string)
    requires (t == [] || t[|t| - 1] == '/') && '/' !in u
    ensures SegmentStart(t + u) == |t|
    decreases |u|
  {
    if u != [] {
      assert (t + u)[..|t + u| - 1] == t + u[..|u| - 1];
      SegmentTail(t, u[..|u| - 1]);
    } else {
      assert t + u == t;
    }
  }

  /** `split(path)`: the basename cut at every `.`. */
  function Split(p: string): seq<string> {
    SplitOn(Basename(p), '.')
  }

  /** The parts join back to the basename with `.`, none holds a `.` or a
      `/`, and there is one more part than there are dots. */
  lemma SplitParts(p: string)
    ensures Join(Split(p), ".") == Basename(p)
    ensures forall k :: 0 <= k < |Split(p)| ==> '.' !in Split(p)[k] && '/' !in Split(p)[k]
    ensures |Split(p)| == Count(Basename(p), '.') + 1
  {
    SplitJoin(Basename(p), '.');
    SplitCount(Basename(p), '.');
    var b := Basename(p);
    SplitPartsWithout(b, '.', '/');
  }

  /** A name without a dot splits into itself alone. */
  lemma SplitNoDot(p: string)
    requires '.' !in Basename(p)
    ensures Split(p) == [Basename(p)]
  {
  }
}
