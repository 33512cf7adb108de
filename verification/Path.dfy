/** Path names: parsing (fs/fs.c) and lexical normalisation (shell/buildin_cmd.c). A C string
    is the sequence of its characters before the terminator; a pointer into it is an index,
    and -1 is NULL. */
module Paths {

  predicate NoSlash(s: string) {
    forall i :: 0 <= i < |s| ==> s[i] != '/'
  }

  /** A component that names something: not empty, no slash, neither dot nor dot-dot. */
  predicate Plain(name: string) {
    name != "" && NoSlash(name) && name != "." && name != ".."
  }

  predicate AllPlain(names: seq<string>) {
    forall i :: 0 <= i < |names| ==> Plain(names[i])
  }

  /** How many characters come before the first slash. */
  function NameLen(p: string): (n: nat)
    ensures n <= |p| && NoSlash(p[..n]) && (n < |p| ==> p[n] == '/')
  {
    if p == "" || p[0] == '/' then 0 else 1 + NameLen(p[1..])
  }

  /** The components of a path. */
  function Split(p: string): seq<string>
    decreases |p|
  {
    if p == "" then []
    else if p[0] == '/' then Split(p[1..])
    else [p[..NameLen(p)]] + Split(p[NameLen(p)..])
  }

  lemma SplitName(name: string, rest: string)
    requires name != "" && NoSlash(name) && (rest == "" || rest[0] == '/')
    ensures Split(name + rest) == [name] + Split(rest)
  {
    var p := name + rest;
    NameLenOf(name, rest);
    assert p[0] == name[0] && p[..|name|] == name && p[|name|..] == rest;
  }

  lemma {:induction false} NameLenOf(name: string, rest: string)
    requires NoSlash(name) && (rest == "" || rest[0] == '/')
    ensures NameLen(name + rest) == |name|
  {
    if name == "" {
      assert name + rest == rest;
    } else {
      assert (name + rest)[1..] == name[1..] + rest;
      NameLenOf(name[1..], rest);
    }
  }

  lemma SplitEmpty()
    ensures Split("") == []
  {
  }

  lemma SplitSlash(rest: string)
    ensures Split("/" + rest) == Split(rest)
  {
  }

  /** Components of two paths joined by a slash. */
  lemma {:induction false} SplitConcat(a: string, b: string)
    ensures Split(a + "/" + b) == Split(a) + Split(b)
    decreases |a|
  {
    if a == "" {
      assert a + "/" + b == "/" + b;
      SplitSlash(b);
    } else if a[0] == '/' {
      assert a + "/" + b == "/" + (a[1..] + "/" + b);
      SplitSlash(a[1..] + "/" + b);
      SplitConcat(a[1..], b);
    } else {
      var n := NameLen(a);
      var rest := a[n..];
      assert n > 0;
      SplitConcat(rest, b);
      assert a + "/" + b == a[..n] + (rest + "/" + b);
      SplitName(a[..n], rest + "/" + b);
    }
  }

  /** Every name with a slash before it. */
  function Slashed(names: seq<string>): string {
    if names == [] then "" else Slashed(names[..|names| - 1]) + "/" + names[|names| - 1]
  }

  /** The path with these components. */
  function Render(names: seq<string>): string {
    if names == [] then "/" else Slashed(names)
  }

  lemma {:induction false} SplitSlashed(names: seq<string>)
    requires AllPlain(names)
    ensures Split(Slashed(names)) == names && Split(Render(names)) == names
  {
    if names != [] {
      var init, last := names[..|names| - 1], names[|names| - 1];
      SplitSlashed(init);
      SplitConcat(Slashed(init), last);
      assert last + "" == last;
      SplitName(last, "");
      assert init + [last] == names;
    } else {
      SplitSlash("");
      assert "/" + "" == "/";
    }
  }

  // ---------------------------------------------------------------- normalisation

  /** One component, on a stack of names. */
  function Push(stack: seq<string>, c: string): seq<string> {
    if c == "." then stack
    else if c == ".." then (if stack == [] then [] else stack[..|stack| - 1])
    else stack + [c]
  }

  function Normal(stack: seq<string>, comps: seq<string>): seq<string>
    decreases comps
  {
    if comps == [] then stack else Normal(Push(stack, comps[0]), comps[1..])
  }

  function Washed(path: string): string {
    Render(Normal([], Split(path)))
  }

  lemma {:induction false} SplitNames(p: string)
    ensures forall i :: 0 <= i < |Split(p)| ==> Split(p)[i] != "" && NoSlash(Split(p)[i])
    decreases |p|
  {
    if p != "" {
      if p[0] == '/' { SplitNames(p[1..]); } else { SplitNames(p[NameLen(p)..]); }
    }
  }

  lemma {:induction false} NormalPlain(stack: seq<string>, comps: seq<string>)
    requires AllPlain(stack) && forall i :: 0 <= i < |comps| ==> comps[i] != "" && NoSlash(comps[i])
    ensures AllPlain(Normal(stack, comps))
    decreases comps
  {
    if comps != [] { NormalPlain(Push(stack, comps[0]), comps[1..]); }
  }

  lemma {:induction false} NormalAppend(stack: seq<string>, a: seq<string>, b: seq<string>)
    ensures Normal(stack, a + b) == Normal(Normal(stack, a), b)
    decreases a
  {
    if a == [] {
      assert a + b == b;
    } else {
      assert (a + b)[1..] == a[1..] + b;
      NormalAppend(Push(stack, a[0]), a[1..], b);
    }
  }

  lemma {:induction false} NormalOfPlain(stack: seq<string>, names: seq<string>)
    requires AllPlain(names)
    ensures Normal(stack, names) == stack + names
    decreases names
  {
    if names != [] {
      NormalOfPlain(stack + [names[0]], names[1..]);
      assert stack + names == stack + [names[0]] + names[1..];
    }
  }

  /** A washed path is clean: washing it again changes nothing, and its components are the
      stack. */
  lemma WashedIdempotent(path: string)
    ensures Washed(Washed(path)) == Washed(path)
    ensures AllPlain(Split(Washed(path))) && Split(Washed(path)) == Normal([], Split(path))
  {
    var names := Normal([], Split(path));
    SplitNames(path);
    NormalPlain([], Split(path));
    SplitSlashed(names);
    NormalOfPlain([], names);
    assert [] + names == names;
  }

  /** A relative path, appended to the path of a directory, is normalised from the stack of
      that directory. */
  lemma WashedRelative(names: seq<string>, path: string)
    requires AllPlain(names)
    ensures Washed((if names == [] then "/" else Render(names) + "/") + path) == Render(Normal(names, Split(path)))
  {
    hide Split; hide Slashed; hide NoSlash; hide Normal; hide AllPlain;
    SplitSlashed(names);
    NormalAppend([], names, Split(path));
    NormalOfPlain([], names);
    assert [] + names == names;
    if names == [] {
      SplitSlash(path);
      assert names + Split(path) == Split(path);
    } else {
      SplitConcat(Render(names), path);
    }
  }

  // ---------------------------------------------------------------- strings as edited

  /** `strrchr(s, '/')`. */
  function LastSlash(s: string): (r: int)
    ensures -1 <= r < |s| && (r >= 0 ==> s[r] == '/') && forall i :: r < i < |s| ==> s[i] != '/'
  {
    if s == "" then -1 else if s[|s| - 1] == '/' then |s| - 1 else LastSlash(s[..|s| - 1])
  }

  lemma {:induction false} LastSlashOf(a: string, name: string)
    requires NoSlash(name)
    ensures LastSlash(a + "/" + name) == |a|
  {
    var s := a + "/" + name;
    if name == "" {
      assert s[|s| - 1] == '/';
    } else {
      assert s[|s| - 1] == name[|name| - 1];
      assert s[..|s| - 1] == a + "/" + name[..|name| - 1];
      LastSlashOf(a, name[..|name| - 1]);
    }
  }

  /** `path_parse`: the first component, and where it ends. */
  method PathParse(path: string, pos: nat) returns (name: string, next: int)
    requires pos <= |path|
    ensures next == -1 || pos < next < |path|
    ensures name == "" ==> next == -1 && Split(path[pos..]) == []
    ensures name != "" ==> NoSlash(name) && Split(path[pos..]) == [name] + (if next == -1 then []
              else Split(path[next..]))
  {
    hide Split;
    var p := pos;
    if p < |path| && path[p] == '/' {
      SplitSlash(path[p + 1..]);
      assert path[pos..] == "/" + path[p + 1..];
      p := p + 1;
      while p < |path| && path[p] == '/'
        invariant pos < p <= |path| && Split(path[pos..]) == Split(path[p..])
      {
        SplitSlash(path[p + 1..]);
        assert path[p..] == "/" + path[p + 1..];
        p := p + 1;
      }
    }
    ghost var start := p;
    name := "";
    while p < |path| && path[p] != '/'
      invariant start <= p <= |path| && name == path[start..p] && NoSlash(name)
    {
      name := name + [path[p]];
      p := p + 1;
    }
    assert path[start..] == name + path[p..];
    SplitEmpty();
    if name != "" { SplitName(name, path[p..]); }
    next := if p == |path| then -1 else p;
  }

  /** `path_depth_cnt`. `junk` tells whether the buffer for the name, which is not cleared
      before the first parse, happens to start with a nonzero byte. */
  method PathDepth(path: string, junk: bool) returns (depth: nat)
    ensures depth == if Split(path) == [] && junk then 1 else |Split(path)|
  {
    depth := 0;
    assert path[0..] == path;
    var name, p := PathParse(path, 0);
    var more := name != "" || junk;
    while more
      invariant -1 <= p < |path| && (more && name == "" ==> junk && depth == 0 && p == -1 && Split(path) == [])
      invariant name != "" ==> more && depth + 1 + (if p == -1 then 0 else |Split(path[p..])|) == |Split(path)|
      invariant !more ==> depth == if Split(path) == [] && junk then 1 else |Split(path)|
      decreases more, if p == -1 then 0 else |path| - p + 1
    {
      depth := depth + 1;
      name := "";
      if p != -1 {
        name, p := PathParse(path, p);
      }
      more := name != "";
    }
  }

  /** `wash_path`. */
  method WashPath(path: string) returns (out: string)
    requires path != "" && path[0] == '/'
    ensures out == Washed(path)
  {
    assert path[0..] == path;
    SplitNames(path);
    var name, sub := PathParse(path, 0);
    if name == "" {
      return "/";
    }
    out := "/";
    ghost var stack: seq<string> := [];
    while name != ""
      invariant -1 <= sub < |path| && NoSlash(name) && AllPlain(stack) && out == Render(stack)
      invariant Normal([], Split(path))
                == Normal(stack, if name == "" then [] else [name] + if sub == -1 then [] else Split(path[sub..]))
      decreases if name == "" then 0 else 1, if sub == -1 then 0 else |path| - sub + 1
    {
      ghost var rest := if sub == -1 then [] else Split(path[sub..]);
      assert ([name] + rest)[1..] == rest;
      out := WashStep(out, name, stack);
      stack := Push(stack, name);
      name := "";
      if sub != -1 {
        name, sub := PathParse(path, sub);
      }
    }
  }

  /** What the loop does to the output for one component. */
  method WashStep(path: string, name: string, ghost stack: seq<string>) returns (out: string)
    requires AllPlain(stack) && path == Render(stack) && name != "" && NoSlash(name)
    ensures out == Render(Push(stack, name)) && AllPlain(Push(stack, name))
  {
    hide Slashed; hide LastSlash; hide Render; hide NoSlash;
    out := path;
    if name == ".." {
      PopSlash(stack);
      var slash := LastSlash(out);
      if slash != 0 {
        out := out[..slash];
      } else {
        out := out[..1];
      }
    } else if name != "." {
      PushSlash(stack, name);
      if out != "/" {
        out := out + "/";
      }
      out := out + name;
    }
  }

  lemma PopSlash(stack: seq<string>)
    requires AllPlain(stack)
    ensures var s := Render(stack); var slash := LastSlash(s);
            0 <= slash && |s| >= 1 && Render(Push(stack, "..")) == if slash != 0 then s[..slash] else s[..1]
  {
    if stack != [] {
      var init := stack[..|stack| - 1];
      LastSlashOf(Slashed(init), stack[|stack| - 1]);
      SlashedLonger(init);
      assert Slashed(stack)[..|Slashed(init)|] == Slashed(init);
    }
  }

  lemma PushSlash(stack: seq<string>, name: string)
    requires AllPlain(stack)
    ensures Render(stack + [name]) == (if Render(stack) != "/" then Render(stack) + "/" else Render(stack)) + name
  {
    assert (stack + [name])[..|stack|] == stack;
    SlashedLonger(stack);
  }

  lemma {:induction false} SlashedLonger(names: seq<string>)
    requires AllPlain(names)
    ensures |Slashed(names)| >= 2 * |names|
  {
    if names != [] { SlashedLonger(names[..|names| - 1]); }
  }
}
