/** Lexical path resolution: the stack loop of the policy engine, on POSIX path strings. */
module ResolvePath {

  datatype Component = RootDir | CurDir | ParentDir | Normal(name: string)

  // ----- Paths as strings -----

  predicate IsAbsolute(p: string) { p != [] && p[0] == '/' }

  /** The index of the first slash, or the length. */
  function SlashIndex(p: string): (i: nat)
    ensures i <= |p|
    ensures forall k :: 0 <= k < i ==> p[k] != '/'
    ensures i < |p| ==> p[i] == '/'
  {
    if p == [] || p[0] == '/' then 0 else 1 + SlashIndex(p[1..])
  }

  /** The parts between slashes, empty ones dropped. */
  function Split(p: string): seq<string>
    decreases |p|
  {
    if p == [] then [] else
    var i := SlashIndex(p);
    var rest := if i < |p| then Split(p[i + 1..]) else [];
    if i == 0 then rest else [p[..i]] + rest
  }

  function ComponentOf(name: string): Component {
    if name == "." then CurDir else if name == ".." then ParentDir else Normal(name)
  }

  function ComponentsOf(names: seq<string>): (r: seq<Component>)
    ensures |r| == |names|
    ensures forall i :: 0 <= i < |names| ==> r[i] == ComponentOf(names[i])
  {
    seq(|names|, i requires 0 <= i < |names| => ComponentOf(names[i]))
  }

  function Components(p: string): seq<Component> {
    (if IsAbsolute(p) then [RootDir] else []) + ComponentsOf(Split(p))
  }

  function Join(dir: string, p: string): string {
    if IsAbsolute(p) then p
    else Directory(dir) + p
  }

  /** The root, if any, with the names pushed one by one. */
  function Render(root: bool, names: seq<string>): string {
    if names == [] then (if root then "/" else "") else
    var front := Render(root, names[..|names| - 1]);
    Directory(front) + names[|names| - 1]
  }

  // ----- The code -----

  method Resolve(workingDir: string, p: string) returns (out: string)
    ensures out == Resolved(workingDir, p)
  {
    hide Components, Render, Walk;
    var absolute := if IsAbsolute(p) then p else Join(workingDir, p);
    var stack: seq<string> := [];
    var root := false;
    var components := Components(absolute);
    RootsUpTo(components, 0);
    WalkUpTo(components, 0);
    for i := 0 to |components|
      invariant root == HasRoot(components[..i])
      invariant stack == Walk([], components[..i])
    {
      RootsUpTo(components, i);
      WalkUpTo(components, i);
      match components[i]
      case RootDir => root := true;
      case CurDir =>
      case ParentDir =>
        if stack != [] {
          stack := stack[..|stack| - 1];
        }
      case Normal(name) => stack := stack + [name];
    }
    assert components[..|components|] == components;
    var k := 0;
    out := if root then "/" else "";
    RenderUpTo(root, stack, 0);
    while k < |stack|
      invariant 0 <= k <= |stack|
      invariant out == Render(root, stack[..k])
    {
      RenderUpTo(root, stack, k);
      if out != [] && out[|out| - 1] != '/' {
        out := out + "/";
      }
      out := out + stack[k];
      k := k + 1;
    }
    assert stack[..|stack|] == stack;
  }

  // ----- Walking the tree -----

  predicate HasRoot(components: seq<Component>) {
    exists i :: 0 <= i < |components| && components[i] == RootDir
  }

  /** Where a walk that starts at `at` ends, going down for a name and up for `..`, never above the root. */
  function Walk(at: seq<string>, components: seq<Component>): seq<string>
    decreases |components|
  {
    if components == [] then at else Walk(Go(at, components[0]), components[1..])
  }

  function Go(at: seq<string>, c: Component): seq<string> {
    match c
    case RootDir => at
    case CurDir => at
    case ParentDir => if at == [] then [] else at[..|at| - 1]
    case Normal(name) => at + [name]
  }

  function Resolved(workingDir: string, p: string): string {
    var components := Components(Join(workingDir, p));
    Render(HasRoot(components), Walk([], components))
  }

  lemma {:induction false} WalkAppend(at: seq<string>, a: seq<Component>, b: seq<Component>)
    ensures Walk(at, a + b) == Walk(Walk(at, a), b)
    decreases |a|
  {
    if a == [] {
      assert a + b == b;
    } else {
      assert (a + b)[1..] == a[1..] + b;
      WalkAppend(Go(at, a[0]), a[1..], b);
    }
  }

  lemma WalkUpTo(components: seq<Component>, i: nat)
    requires i <= |components|
    ensures Walk([], components[..0]) == []
    ensures i < |components| ==>
              Walk([], components[..i + 1]) == Go(Walk([], components[..i]), components[i])
  {
    if i < |components| {
      assert components[..i + 1] == components[..i] + [components[i]];
      WalkAppend([], components[..i], [components[i]]);
      assert [components[i]][1..] == [];
    }
  }

  lemma RootsUpTo(components: seq<Component>, i: nat)
    requires i <= |components|
    ensures !HasRoot(components[..0])
    ensures i < |components| ==>
            (HasRoot(components[..i + 1]) <==> HasRoot(components[..i]) || components[i] == RootDir)
  {
    if i < |components| {
      assert components[..i + 1] == components[..i] + [components[i]];
      assert components[..i + 1][i] == components[i];
      if HasRoot(components[..i]) {
        var k :| 0 <= k < i && components[..i][k] == RootDir;
        assert components[..i + 1][k] == RootDir;
      }
    }
  }

  lemma RenderUpTo(root: bool, names: seq<string>, k: nat)
    requires k <= |names|
    ensures Render(root, names[..0]) == if root then "/" else ""
    ensures k < |names| ==>
              var front := Render(root, names[..k]);
              Render(root, names[..k + 1]) == Directory(front) + names[k]
  {
    if k < |names| {
      assert names[..k + 1][..k] == names[..k];
    }
  }

  // ----- What resolution gives -----

  /** A name of the tree: not empty, without a slash, neither `.` nor `..`. */
  predicate IsName(name: string) {
    name != [] && '/' !in name && name != "." && name != ".."
  }

  ghost predicate AllNames(names: seq<string>) {
    forall i :: 0 <= i < |names| ==> IsName(names[i])
  }

  lemma {:induction false} SplitParts(p: string)
    ensures forall i :: 0 <= i < |Split(p)| ==> Split(p)[i] != [] && '/' !in Split(p)[i]
    decreases |p|
  {
    if p != [] {
      var i := SlashIndex(p);
      if i < |p| {
        SplitParts(p[i + 1..]);
      }
    }
  }

  lemma {:induction false} WalkNames(at: seq<string>, components: seq<Component>)
    requires AllNames(at) && forall i :: 0 <= i < |components| && components[i].Normal? ==> IsName(components[i].name)
    ensures AllNames(Walk(at, components))
    decreases |components|
  {
    hide IsName;
    if components != [] {
      WalkNames(Go(at, components[0]), components[1..]);
    }
  }

  lemma ComponentNames(p: string)
    ensures forall i :: 0 <= i < |Components(p)| && Components(p)[i].Normal? ==> IsName(Components(p)[i].name)
  {
    SplitParts(p);
    hide Split;
  }

  lemma RootIsFirst(p: string)
    ensures HasRoot(Components(p)) <==> IsAbsolute(p)
  {
    hide Split;
    if IsAbsolute(p) {
      assert Components(p)[0] == RootDir;
    }
  }

  /** Below an absolute directory every path resolves to a chain of names from the root. */
  lemma ResolvedIsNormal(workingDir: string, p: string)
    requires IsAbsolute(workingDir)
    ensures exists names :: AllNames(names) && Resolved(workingDir, p) == Render(true, names)
              && names == Walk([], Components(Join(workingDir, p)))
  {
    hide Components, Walk, Render;
    var components := Components(Join(workingDir, p));
    ComponentNames(Join(workingDir, p));
    RootIsFirst(Join(workingDir, p));
    WalkNames([], components);
  }

  lemma SplitHead(p: string, rest: string)
    requires '/' !in p
    ensures SlashIndex(p + "/" + rest) == |p|
    ensures Split(p + "/" + rest) == (if p == [] then [] else [p]) + Split(rest)
    ensures Split(p) == if p == [] then [] else [p]
  {
    SlashAfter(p, rest);
    var s := p + "/" + rest;
    assert s[..|p|] == p && s[|p| + 1..] == rest;
    NoSlash(p);
    assert p[..|p|] == p;
  }

  lemma {:induction false} SlashAfter(p: string, rest: string)
    requires '/' !in p
    ensures SlashIndex(p + "/" + rest) == |p|
  {
    if p != [] {
      assert (p + "/" + rest)[1..] == p[1..] + "/" + rest;
      SlashAfter(p[1..], rest);
    }
  }

  lemma {:induction false} NoSlash(p: string)
    requires '/' !in p
    ensures SlashIndex(p) == |p|
  {
    if p != [] {
      NoSlash(p[1..]);
    }
  }

  /** A slash always separates. */
  lemma {:induction false} SplitAppend(a: string, b: string)
    ensures Split(a + "/" + b) == Split(a) + Split(b)
    decreases |a|
  {
    hide Split, SlashIndex;
    var i := SlashIndex(a);
    SlashFacts(a);
    if i == |a| {
      SplitHead(a, b);
    } else {
      var head, tail := a[..i], a[i + 1..];
      assert a == head + "/" + tail;
      SplitHead(head, tail);
      SplitHead(head, tail + "/" + b);
      assert a + "/" + b == head + "/" + (tail + "/" + b);
      SplitAppend(tail, b);
    }
  }

  lemma SlashFacts(p: string)
    ensures var i := SlashIndex(p); i <= |p| && '/' !in p[..i] && (i < |p| ==> p[i] == '/')
  {
    assert forall k :: 0 <= k < SlashIndex(p) ==> p[..SlashIndex(p)][k] == p[k] != '/';
  }

  /** `p` up to and including a last slash. */
  function Directory(p: string): string {
    if p == [] || p[|p| - 1] == '/' then p else p + "/"
  }

  lemma SplitPush(dir: string, rest: string)
    requires dir != []
    ensures Split(Directory(dir) + rest) == Split(dir) + Split(rest)
  {
    hide Split;
    if dir[|dir| - 1] == '/' {
      var init := dir[..|dir| - 1];
      assert dir == init + "/" + "" && dir + rest == init + "/" + rest;
      SplitAppend(init, "");
      SplitAppend(init, rest);
      EmptySplit();
    } else {
      SplitAppend(dir, rest);
    }
  }

  lemma SplitName(name: string)
    requires IsName(name)
    ensures Split(name) == [name]
  {
    hide Split;
    SplitHead(name, "");
  }

  lemma {:induction false} SplitRendered(names: seq<string>)
    requires AllNames(names)
    ensures Split(Render(true, names)) == names
    ensures IsAbsolute(Render(true, names))
    decreases |names|
  {
    hide Split, IsName;
    if names == [] {
      SplitHead("", "");
      assert "/" == "" + "/" + "";
      EmptySplit();
    } else {
      var init, last := names[..|names| - 1], names[|names| - 1];
      SplitRendered(init);
      SplitPush(Render(true, init), last);
      SplitName(last);
      assert names == init + [last];
    }
  }

  lemma EmptySplit()
    ensures Split("") == []
  {}

  /** Walking down plain names reaches exactly them. */
  lemma {:induction false} WalkDown(at: seq<string>, names: seq<string>)
    requires AllNames(names)
    ensures Walk(at, ComponentsOf(names)) == at + names
    decreases |names|
  {
    if names == [] {
      assert at + names == at;
    } else {
      assert ComponentsOf(names)[1..] == ComponentsOf(names[1..]);
      assert IsName(names[0]);
      WalkDown(at + [names[0]], names[1..]);
      assert at + [names[0]] + names[1..] == at + names;
    }
  }

  lemma WalkRendered(names: seq<string>)
    requires AllNames(names)
    ensures Walk([], Components(Render(true, names))) == names
  {
    hide Render, ComponentsOf;
    SplitRendered(names);
    WalkAppend([], [RootDir], ComponentsOf(names));
    assert Walk([], [RootDir]) == [] by { assert [RootDir][1..] == []; }
    WalkDown([], names);
    assert [] + names == names;
  }

  /** Resolving what is resolved changes nothing, whatever the directory. */
  lemma Idempotent(workingDir: string, other: string, p: string)
    requires IsAbsolute(workingDir)
    ensures Resolved(other, Resolved(workingDir, p)) == Resolved(workingDir, p)
  {
    hide Components, Walk, Render;
    ResolvedIsNormal(workingDir, p);
    var names := Walk([], Components(Join(workingDir, p)));
    SplitRendered(names);
    WalkRendered(names);
    RootIsFirst(Render(true, names));
  }

  lemma ComponentsAppend(a: string, b: string)
    requires !IsAbsolute(b) && a != []
    ensures Components(Join(a, b)) == Components(a) + Components(b)
  {
    hide Split;
    SplitPush(a, b);
    assert ComponentsOf(Split(a) + Split(b)) == ComponentsOf(Split(a)) + ComponentsOf(Split(b));
    assert IsAbsolute(Join(a, b)) == IsAbsolute(a);
  }

  /** Resolving in two steps, `a` and from there `b`, is resolving `a/b`. */
  lemma Composes(workingDir: string, a: string, b: string)
    requires IsAbsolute(workingDir)
    ensures Resolved(Resolved(workingDir, a), b) == Resolved(workingDir, Join(a, b))
  {
    hide Components, Walk, Render;
    if !IsAbsolute(b) {
      ResolvedIsNormal(workingDir, a);
      var names := Walk([], Components(Join(workingDir, a)));
      var at := Render(true, names);
      SplitRendered(names);
      WalkRendered(names);
      ComponentsAppend(at, b);
      JoinedComponents(workingDir, a, b);
      WalkAppend([], Components(at), Components(b));
      WalkAppend([], Components(Join(workingDir, a)), Components(b));
      RootIsFirst(Join(at, b));
      RootIsFirst(Join(workingDir, Join(a, b)));
    }
  }

  lemma JoinedComponents(workingDir: string, a: string, b: string)
    requires IsAbsolute(workingDir) && !IsAbsolute(b)
    ensures Components(Join(workingDir, Join(a, b))) == Components(Join(workingDir, a)) + Components(b)
    ensures IsAbsolute(Join(workingDir, Join(a, b)))
  {
    hide Components;
    if a == [] {
      ComponentsAppend(workingDir, a);
      ComponentsAppend(workingDir, b);
      NoComponents();
      assert Join(a, b) == b;
      assert Components(workingDir) + [] == Components(workingDir);
    } else {
      JoinAssociates(workingDir, a, b);
      ComponentsAppend(Join(workingDir, a), b);
    }
  }

  lemma NoComponents()
    ensures Components("") == []
  {
    EmptySplit();
  }

  lemma JoinAssociates(workingDir: string, a: string, b: string)
    requires IsAbsolute(workingDir) && !IsAbsolute(b) && a != []
    ensures Join(workingDir, Join(a, b)) == Join(Join(workingDir, a), b)
    ensures Join(workingDir, a) != []
  {}

  lemma RootAlone()
    ensures Resolved("/", "..") == "/"
  {
    assert Join("/", "..") == "/..";
    SplitAppend("", "..");
    EmptySplit();
    assert "" + "/" + ".." == "/..";
    SplitHead("..", "");
    assert Components("/..") == [RootDir, ParentDir];
    assert [RootDir, ParentDir][1..] == [ParentDir] && [ParentDir][1..] == [];
    RootIsFirst("/..");
  }

  /** At the root, going up first makes no difference to any path. */
  lemma ParentOfRoot(p: string)
    ensures Resolved("/", Join("..", p)) == Resolved("/", p)
  {
    hide Resolved;
    RootAlone();
    Composes("/", "..", p);
  }

  // ----- Down, up, and where one is -----

  lemma PlainComponents(name: string)
    requires IsName(name)
    ensures Components(name) == [Normal(name)] && !IsAbsolute(name)
  {
    SplitName(name);
  }

  lemma DotComponents()
    ensures Components(".") == [CurDir] && Components("..") == [ParentDir]
  {
    SplitHead(".", "");
    SplitHead("..", "");
  }

  lemma WalkOne(at: seq<string>, c: Component)
    ensures Walk(at, [c]) == Go(at, c)
  {
    assert [c][1..] == [];
  }

  lemma ResolvedRelative(workingDir: string, p: string)
    requires IsAbsolute(workingDir) && !IsAbsolute(p)
    ensures Resolved(workingDir, p) == Render(true, Walk(Walk([], Components(workingDir)), Components(p)))
  {
    hide Components, Render;
    ComponentsAppend(workingDir, p);
    WalkAppend([], Components(workingDir), Components(p));
    RootIsFirst(Join(workingDir, p));
  }

  /** Down to a name and up again leads back, wherever one is and wherever one goes on to. */
  lemma UpUndoesDown(workingDir: string, name: string, p: string)
    requires IsAbsolute(workingDir) && IsName(name) && !IsAbsolute(p)
    ensures Resolved(workingDir, Join(name, Join("..", p))) == Resolved(workingDir, p)
  {
    hide Components, Render, Walk, Resolved;
    var up := Join("..", p);
    var at := Walk([], Components(workingDir));
    PlainComponents(name);
    DotComponents();
    ComponentsAppend("..", p);
    ComponentsAppend(name, up);
    ResolvedRelative(workingDir, p);
    ResolvedRelative(workingDir, Join(name, up));
    WalkAppend(at, [Normal(name)], Components(up));
    WalkAppend(at + [name], [ParentDir], Components(p));
    WalkOne(at, Normal(name));
    WalkOne(at + [name], ParentDir);
    assert (at + [name])[..|at|] == at;
  }

  /** A dot stays where one is. */
  lemma DotStays(workingDir: string, p: string)
    requires IsAbsolute(workingDir) && !IsAbsolute(p)
    ensures Resolved(workingDir, Join(".", p)) == Resolved(workingDir, p)
  {
    hide Components, Render, Walk, Resolved;
    var at := Walk([], Components(workingDir));
    DotComponents();
    ComponentsAppend(".", p);
    ResolvedRelative(workingDir, p);
    ResolvedRelative(workingDir, Join(".", p));
    WalkAppend(at, [CurDir], Components(p));
    WalkOne(at, CurDir);
  }

  /** A name goes down by that name. */
  lemma NameGoesDown(workingDir: string, name: string)
    requires IsAbsolute(workingDir) && IsName(name)
    ensures var here := Resolved(workingDir, "");
            Resolved(workingDir, name) == here + (if here == "/" then "" else "/") + name
  {
    hide Components, Walk, Resolved;
    var at := Walk([], Components(workingDir));
    PlainComponents(name);
    NoComponents();
    ResolvedRelative(workingDir, name);
    ResolvedRelative(workingDir, "");
    WalkOne(at, Normal(name));
    assert Walk(at, []) == at by { WalkNothing(at); }
    assert (at + [name])[..|at|] == at;
    ResolvedIsNormal(workingDir, "");
    var names :| AllNames(names) && Resolved(workingDir, "") == Render(true, names)
              && names == Walk([], Components(Join(workingDir, "")));
    RenderedEnd(names);
  }

  lemma WalkNothing(at: seq<string>)
    ensures Walk(at, []) == at
  {}

  lemma RenderedEnd(names: seq<string>)
    requires AllNames(names)
    ensures var r := Render(true, names); r != [] && (r[|r| - 1] == '/' <==> r == "/")
  {
    if names != [] {
      var name := names[|names| - 1];
      assert IsName(name) && name[|name| - 1] in name;
    }
  }

  /** An absolute path is resolved by itself, and the root is the root. */
  lemma AbsoluteStands(workingDir: string, p: string)
    ensures IsAbsolute(p) ==> Resolved(workingDir, p) == Resolved("/", p)
    ensures Resolved("/", "") == "/"
  {
    hide Walk;
    ResolvedRelative("/", "");
    NoComponents();
    WalkNothing([]);
    assert Components("/") == [RootDir] by { SplitHead("", ""); EmptySplit(); assert "" + "/" + "" == "/"; }
    WalkOne([], RootDir);
  }
}
