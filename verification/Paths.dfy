/** `abspath` of src/fs/namei.c, which changes a working directory by a path in place in a
    character buffer, against a stack of names; with the string routines of src/lib/string.c it
    uses. */
module Paths {
  import opened Outcomes

  const EOS: char := '\0'

  /** `IS_SEPARATOR`. */
  predicate IsSeparator(c: char) {
    c == '/' || c == '\\'
  }

  // ---------- What the path means ----------

  type Name = string

  /** The place of the first separator. */
  function FirstSep(path: string): (r: Option<nat>)
    ensures r.Some? ==> r.value < |path| && IsSeparator(path[r.value]) && forall i | 0 <= i < r.value :: !IsSeparator(path[i])
    ensures r.None? ==> forall i | 0 <= i < |path| :: !IsSeparator(path[i])
  {
    if path == "" then None
    else if IsSeparator(path[0]) then Some(0)
    else
      match FirstSep(path[1..])
      case None => None
      case Some(k) => Some(k + 1)
  }

  /** One name of a path: `.` stays, `..` goes up but not above the root, any other goes down. */
  function Follow(stack: seq<Name>, name: Name): seq<Name> {
    if name == "." then stack
    else if name == ".." then (if stack == [] then [] else stack[..|stack| - 1])
    else stack + [name]
  }

  /** A path followed from a directory; nothing after the last separator adds nothing. */
  function Walk(stack: seq<Name>, path: string): seq<Name>
    decreases |path|
  {
    match FirstSep(path)
    case None => if path == "" then stack else Follow(stack, path)
    case Some(k) => Walk(Follow(stack, path[..k]), path[k + 1..])
  }

  /** A leading separator starts from the root. */
  function AbsPath(stack: seq<Name>, path: string): seq<Name> {
    if path != "" && IsSeparator(path[0]) then Walk([], path[1..]) else Walk(stack, path)
  }

  /** The text of a directory, which begins and ends with `/`. */
  function Render(stack: seq<Name>): (s: string)
    ensures |s| > 0 && s[|s| - 1] == '/'
  {
    if stack == [] then "/" else Render(stack[..|stack| - 1]) + stack[|stack| - 1] + "/"
  }

  predicate CleanName(name: Name) {
    forall i | 0 <= i < |name| :: !IsSeparator(name[i]) && name[i] != EOS
  }

  predicate Clean(stack: seq<Name>) {
    forall i | 0 <= i < |stack| :: CleanName(stack[i])
  }

  /** Free of `.`, `..` and empty names. */
  predicate Normal(stack: seq<Name>) {
    forall i | 0 <= i < |stack| :: stack[i] != "." && stack[i] != ".." && stack[i] != ""
  }

  /** Two separators stand next to each other. */
  predicate DoubleSep(path: string) {
    (path != "" && IsSeparator(path[0])) || exists i :: 0 <= i < |path| - 1 && IsSeparator(path[i]) && IsSeparator(path[i + 1])
  }

  lemma {:induction false} WalkNormal(stack: seq<Name>, path: string)
    requires Normal(stack) && !DoubleSep(path)
    ensures Normal(Walk(stack, path))
    decreases |path|
  {
    match FirstSep(path) {
      case None =>
      case Some(k) =>
        var rest := path[k + 1..];
        assert rest != "" ==> !IsSeparator(rest[0]) by {
          assert IsSeparator(path[k]);
          assert rest != "" ==> rest[0] == path[k + 1];
        }
        forall i | 0 <= i < |rest| - 1 ensures !(IsSeparator(rest[i]) && IsSeparator(rest[i + 1])) {
          assert rest[i] == path[k + 1 + i] && rest[i + 1] == path[k + 1 + i + 1];
        }
        WalkNormal(Follow(stack, path[..k]), rest);
    }
  }

  /** From a normal directory a path without an empty name leads to a normal directory. */
  lemma StaysNormal(stack: seq<Name>, path: string)
    requires Normal(stack) && !DoubleSep(if path != "" && IsSeparator(path[0]) then path[1..] else path)
    ensures Normal(AbsPath(stack, path))
  {
    if path != "" && IsSeparator(path[0]) {
      WalkNormal([], path[1..]);
    } else {
      WalkNormal(stack, path);
    }
  }

  // ---------- Paths in parts ----------

  lemma {:induction false} FirstSepIn(a: string, c: char, b: string)
    requires IsSeparator(c)
    ensures FirstSep(a + [c] + b) == if FirstSep(a).Some? then FirstSep(a) else Some(|a|)
  {
    if a == "" || IsSeparator(a[0]) {
    } else {
      assert (a + [c] + b)[1..] == a[1..] + [c] + b;
      FirstSepIn(a[1..], c, b);
    }
  }

  /** Following a path is following its part up to a separator, and from there the rest. */
  lemma {:induction false} WalkParts(stack: seq<Name>, a: string, c: char, b: string)
    requires IsSeparator(c)
    ensures Walk(stack, a + [c] + b) == Walk(Walk(stack, a + [c]), b)
    decreases |a|
  {
    hide FirstSep, Follow;
    FirstSepIn(a, c, b);
    FirstSepIn(a, c, "");
    assert a + [c] + "" == a + [c];
    match FirstSep(a) {
      case None =>
        assert (a + [c] + b)[..|a|] == a == (a + [c])[..|a|];
        assert (a + [c] + b)[|a| + 1..] == b && (a + [c])[|a| + 1..] == "";
        NoPath(Follow(stack, a));
      case Some(k) =>
        assert (a + [c] + b)[..k] == a[..k] == (a + [c])[..k];
        assert (a + [c] + b)[k + 1..] == a[k + 1..] + [c] + b && (a + [c])[k + 1..] == a[k + 1..] + [c];
        WalkParts(Follow(stack, a[..k]), a[k + 1..], c, b);
    }
  }

  lemma NoPath(stack: seq<Name>)
    ensures Walk(stack, "") == stack
  {
  }

  lemma RenderStep(stack: seq<Name>, name: Name)
    ensures Render(stack + [name]) == Render(stack) + name + "/"
    ensures Render([]) == "/"
  {
    assert (stack + [name])[..|stack|] == stack;
  }

  lemma {:induction false} RenderBegins(stack: seq<Name>)
    ensures Render(stack)[0] == '/' && (stack != [] ==> |Render(stack)| >= 2)
    decreases |stack|
  {
    if stack == [] {
    } else {
      RenderBegins(stack[..|stack| - 1]);
    }
  }

  lemma {:induction false} RenderWalks(stack: seq<Name>)
    requires Normal(stack) && Clean(stack)
    ensures Walk([], Render(stack)[1..]) == stack
    decreases |stack|
  {
    hide Render, Walk;
    RenderBegins(stack);
    if stack == [] {
      RenderStep([], "");
      assert Render(stack)[1..] == "";
      NoPath([]);
    } else {
      var n := |stack| - 1;
      var before, name := stack[..n], stack[n];
      assert before + [name] == stack;
      RenderWalks(before);
      RenderStep(before, name);
      RenderBegins(before);
      OneName(before, name);
      StepWalks(before, name);
    }
  }

  lemma StepWalks(before: seq<Name>, name: Name)
    requires Walk([], Render(before)[1..]) == before && Walk(before, name + "/") == before + [name]
    ensures |Render(before)| > 0 && Walk([], (Render(before) + name + "/")[1..]) == before + [name]
  {
    hide Render, Walk;
    var r := Render(before);
    RenderBegins(before);
    if before == [] {
      RenderStep([], "");
      assert (r + name + "/")[1..] == name + "/";
    } else {
      var a := r[1..|r| - 1];
      assert r[1..] == a + ['/'];
      assert (r + name + "/")[1..] == a + ['/'] + (name + "/");
      WalkParts([], a, '/', name + "/");
    }
  }

  /** The text of a directory, as a path, leads to it from anywhere. */
  lemma RenderLeads(from: seq<Name>, stack: seq<Name>)
    requires Normal(stack) && Clean(stack)
    ensures AbsPath(from, Render(stack)) == stack
  {
    hide Render, Walk;
    RenderBegins(stack);
    RenderWalks(stack);
  }

  lemma OneName(stack: seq<Name>, name: Name)
    requires CleanName(name) && name != "." && name != ".."
    ensures Walk(stack, name + "/") == stack + [name]
  {
    hide FirstSep;
    NoSepIn(name);
    FirstSepIn(name, '/', "");
    assert name + ['/'] + "" == name + "/";
    assert (name + "/")[..|name|] == name && (name + "/")[|name| + 1..] == "";
    NoPath(stack + [name]);
  }

  lemma NoSepIn(name: Name)
    requires CleanName(name)
    ensures FirstSep(name).None?
  {
  }

  /** The names of a path: what stands before each separator, and what follows the last one. */
  function Names(path: string): seq<Name>
    decreases |path|
  {
    match FirstSep(path)
    case None => if path == "" then [] else [path]
    case Some(k) => [path[..k]] + Names(path[k + 1..])
  }

  /** Two separators side by side are an empty name. */
  lemma {:induction false} DoubleIsEmpty(path: string)
    ensures DoubleSep(path) <==> "" in Names(path)
    decreases |path|
  {
    match FirstSep(path) {
      case None =>
      case Some(k) =>
        var rest := path[k + 1..];
        DoubleIsEmpty(rest);
        DoubleSplit(path, k);
    }
  }

  lemma DoubleSplit(path: string, k: nat)
    requires FirstSep(path) == Some(k)
    ensures DoubleSep(path) <==> k == 0 || DoubleSep(path[k + 1..])
  {
    var rest := path[k + 1..];
    if DoubleSep(rest) {
      if IsSeparator(rest[0]) {
        assert IsSeparator(path[k]) && IsSeparator(path[k + 1]);
      } else {
        var i :| 0 <= i < |rest| - 1 && IsSeparator(rest[i]) && IsSeparator(rest[i + 1]);
        assert IsSeparator(path[k + 1 + i]) && IsSeparator(path[k + 1 + i + 1]);
      }
    }
    if DoubleSep(path) && k > 0 {
      var i :| 0 <= i < |path| - 1 && IsSeparator(path[i]) && IsSeparator(path[i + 1]);
      assert i >= k;
      assert rest[i - k] == path[i + 1];
      if i > k {
        assert rest[i - k - 1] == path[i];
      }
    }
  }

  /** Without `..` nothing is ever taken back. */
  lemma {:induction false} NothingTakenBack(stack: seq<Name>, path: string)
    requires ".." !in Names(path)
    ensures stack <= Walk(stack, path)
    ensures Normal(Walk(stack, path)) <==> Normal(stack) && "" !in Names(path)
    decreases |path|
  {
    match FirstSep(path) {
      case None =>
        FollowNormal(stack, path);
      case Some(k) =>
        var name, rest := path[..k], path[k + 1..];
        assert Names(path) == [name] + Names(rest);
        assert forall n: Name :: n in Names(path) <==> n == name || n in Names(rest);
        FollowNormal(stack, name);
        NothingTakenBack(Follow(stack, name), rest);
    }
  }

  lemma FollowNormal(stack: seq<Name>, name: Name)
    requires name != ".."
    ensures stack <= Follow(stack, name)
    ensures Normal(Follow(stack, name)) <==> Normal(stack) && name != ""
  {
    if name != "." {
      assert (stack + [name])[|stack|] == name;
      assert forall i | 0 <= i < |stack| :: (stack + [name])[i] == stack[i];
    }
  }

  /** For a path without `..` the directory stays normal exactly when no two separators stand side
      by side: an empty name is kept like any other. */
  lemma StaysNormalIff(stack: seq<Name>, path: string)
    requires Normal(stack)
    requires ".." !in Names(if path != "" && IsSeparator(path[0]) then path[1..] else path)
    ensures Normal(AbsPath(stack, path)) <==> !DoubleSep(if path != "" && IsSeparator(path[0]) then path[1..] else path)
  {
    var whole := path != "" && IsSeparator(path[0]);
    DoubleIsEmpty(if whole then path[1..] else path);
    NothingTakenBack(if whole then [] else stack, if whole then path[1..] else path);
  }

  /** With `..` it can be normal again: the empty name counts as a directory to go up from, so
      that `b//..` leads to `b`. */
  lemma EmptyNameTakenBack(stack: seq<Name>)
    ensures AbsPath(stack, "b//..") == stack + ["b"]
  {
    hide FirstSep;
    BackStep("b//..", 1);
    BackStep("/..", 0);
    BackStep("..", 2);
    assert "b//.."[..1] == "b" && "b//.."[2..] == "/.." && "/.."[..0] == "" && "/.."[1..] == "..";
    assert (stack + ["b"] + [""])[..|stack| + 1] == stack + ["b"];
    WalkStep(stack, "b//..", 1);
    WalkStep(stack + ["b"], "/..", 0);
  }

  lemma BackStep(s: string, k: nat)
    requires k <= |s| && (forall i | 0 <= i < k :: !IsSeparator(s[i])) && (k < |s| ==> IsSeparator(s[k]))
    ensures FirstSep(s) == if k < |s| then Some(k) else None
  {
  }

  lemma RenderPush(stack: seq<Name>, name: Name)
    ensures Render(stack + [name]) == Render(stack) + name + "/"
  {
    assert (stack + [name])[..|stack|] == stack;
  }

  lemma {:induction false} RenderClean(stack: seq<Name>)
    requires Clean(stack)
    ensures forall i | 0 <= i < |Render(stack)| :: Render(stack)[i] != EOS
  {
    if stack == [] {
    } else {
      RenderClean(stack[..|stack| - 1]);
    }
  }

  // ---------- Strings in a buffer ----------

  /** The buffer holds `s` from place `at` on, and its end. */
  ghost predicate Holds(a: array<char>, at: nat, s: string)
    reads a
  {
    && at + |s| < a.Length && a[at..at + |s|] == s && a[at + |s|] == EOS
    && forall i | 0 <= i < |s| :: s[i] != EOS
  }

  lemma CharAt(a: array<char>, at: nat, s: string, i: nat)
    requires Holds(a, at, s) && i <= |s|
    ensures a[at + i] == if i < |s| then s[i] else EOS
    ensures a[at + i] == EOS <==> i == |s|
  {
    assert i < |s| ==> a[at..at + |s|][i] == s[i];
  }

  /** `strsep`: the first separator from `at` on, or -1. */
  method StrSep(a: array<char>, at: nat, ghost s: string) returns (r: int)
    requires Holds(a, at, s)
    ensures match FirstSep(s)
      case None => r == -1
      case Some(k) => r == at + k
  {
    var i := at;
    while true
      invariant at <= i <= at + |s| && forall k | 0 <= k < i - at :: !IsSeparator(s[k])
      decreases at + |s| - i
    {
      CharAt(a, at, s, i - at);
      if IsSeparator(a[i]) {
        return i;
      }
      if a[i] == EOS {
        return -1;
      }
      i := i + 1;
    }
  }

  /** `strrsep`: the last separator, or -1. */
  method StrRSep(a: array<char>, ghost s: string) returns (r: int)
    requires Holds(a, 0, s)
    ensures r == -1 ==> forall i | 0 <= i < |s| :: !IsSeparator(s[i])
    ensures r != -1 ==> 0 <= r < |s| && IsSeparator(s[r]) && forall i | r < i < |s| :: !IsSeparator(s[i])
  {
    r := -1;
    var i := 0;
    while true
      invariant 0 <= i <= |s| && -1 <= r < i
      invariant r != -1 ==> IsSeparator(s[r])
      invariant forall k | r < k < i :: !IsSeparator(s[k])
      decreases |s| - i
    {
      CharAt(a, 0, s, i);
      if IsSeparator(a[i]) {
        r := i;
      }
      if a[i] == EOS {
        return;
      }
      i := i + 1;
    }
  }

  /** `memcmp` with a constant: are the next characters of the string those? */
  method StartsWith(a: array<char>, at: nat, word: string, ghost s: string) returns (same: bool)
    requires Holds(a, at, s) && forall i | 0 <= i < |word| :: word[i] != EOS
    ensures same <==> word <= s
  {
    var i := 0;
    while i < |word|
      invariant 0 <= i <= |word| && i <= |s| && s[..i] == word[..i]
    {
      CharAt(a, at, s, i);
      if a[at + i] != word[i] {
        return false;
      }
      i := i + 1;
    }
    return true;
  }

  method StrLen(a: array<char>, at: nat, ghost s: string) returns (n: nat)
    requires Holds(a, at, s)
    ensures n == |s|
  {
    n := 0;
    CharAt(a, at, s, 0);
    while a[at + n] != EOS
      invariant n <= |s| && (a[at + n] == EOS <==> n == |s|)
      decreases |s| - n
    {
      n := n + 1;
      CharAt(a, at, s, n);
    }
  }

  /** How many characters of `s` fit in `count` places before the end mark. */
  function Fitting(s: string, count: nat): nat
    requires count > 0
  {
    if |s| < count then |s| else count - 1
  }

  /** `strncpy`: as much of the string as fits with its end; the places after that are left. */
  method StrNCpy(dest: array<char>, to: nat, src: array<char>, from: nat, count: nat, ghost s: string)
    requires dest != src && Holds(src, from, s) && count > 0 && to + Fitting(s, count) < dest.Length
    modifies dest
    ensures dest[to..to + Fitting(s, count)] == s[..Fitting(s, count)] && dest[to + Fitting(s, count)] == EOS
    ensures forall i | 0 <= i < dest.Length && !(to <= i <= to + Fitting(s, count)) :: dest[i] == old(dest[i])
  {
    var nr := 0;
    while nr < count
      invariant 0 <= nr <= count && nr <= |s|
      invariant forall i | 0 <= i < nr :: dest[to + i] == s[i]
      invariant forall i | 0 <= i < dest.Length && !(to <= i < to + nr) :: dest[i] == old(dest[i])
    {
      CharAt(src, from, s, nr);
      dest[to + nr] := src[from + nr];
      if src[from + nr] == EOS {
        return;
      }
      nr := nr + 1;
    }
    dest[to + count - 1] := EOS;
  }

  /** `strcpy` of the string `s` at place `from`. */
  method StrCpy(dest: array<char>, to: nat, src: array<char>, from: nat, ghost s: string)
    requires dest != src && Holds(src, from, s) && to + |s| < dest.Length
    modifies dest
    ensures Holds(dest, to, s)
    ensures forall i | 0 <= i < dest.Length && !(to <= i <= to + |s|) :: dest[i] == old(dest[i])
  {
    var nr := 0;
    while true
      invariant 0 <= nr <= |s|
      invariant forall i | 0 <= i < nr :: dest[to + i] == s[i]
      invariant forall i | 0 <= i < dest.Length && !(to <= i <= to + |s|) :: dest[i] == old(dest[i])
      decreases |s| - nr
    {
      CharAt(src, from, s, nr);
      dest[to + nr] := src[from + nr];
      if src[from + nr] == EOS {
        return;
      }
      nr := nr + 1;
    }
  }

  // ---------- abspath in the buffer ----------

  /** The working directory: the text of a stack, with `cur` at its end. */
  ghost predicate Pwd(pwd: array<char>, cur: nat, stack: seq<Name>)
    reads pwd
  {
    Clean(stack) && cur == |Render(stack)| && Holds(pwd, 0, Render(stack))
  }

  /** The steps for `..`: the last name is cut off, unless the directory is the root. */
  method GoUp(pwd: array<char>, cur: nat, ghost stack: seq<Name>) returns (at: nat)
    requires Pwd(pwd, cur, stack)
    modifies pwd
    ensures Pwd(pwd, at, Follow(stack, ".."))
  {
    at := cur;
    RenderRoot(stack);
    if cur - 1 != 0 {
      ghost var up := stack[..|stack| - 1];
      ghost var text := Render(up) + stack[|stack| - 1];
      ghost var was := pwd[..];
      pwd[cur - 1] := EOS;
      assert pwd[0..|text|] == text by {
        assert was[0..cur] == Render(stack) == text + "/";
        assert pwd[0..|text|] == was[0..cur][..|text|];
      }
      RenderClean(up);
      assert Holds(pwd, 0, text);
      var last := StrRSep(pwd, text);
      LastSep(up, stack[|stack| - 1], last);
      at := last + 1;
      pwd[at] := EOS;
      assert pwd[0..at] == text[..at] == Render(up);
    }
  }

  lemma RenderRoot(stack: seq<Name>)
    ensures |Render(stack)| == 1 <==> stack == []
  {
  }

  /** The last separator in front of a name is the end of what is above it. */
  lemma LastSep(up: seq<Name>, name: Name, r: int)
    requires CleanName(name) && -1 <= r
    requires var s := Render(up) + name;
      && (r == -1 ==> forall i | 0 <= i < |s| :: !IsSeparator(s[i]))
      && (r != -1 ==> r < |s| && IsSeparator(s[r]) && forall i | r < i < |s| :: !IsSeparator(s[i]))
    ensures r == |Render(up)| - 1
  {
    var s := Render(up) + name;
    var k := |Render(up)| - 1;
    assert s[k] == '/' && IsSeparator(s[k]);
    assert forall i | k < i < |s| :: s[i] == name[i - k - 1];
  }

  /** A name and a separator behind the text of a directory. */
  lemma PwdPush(pwd: array<char>, cur: nat, stack: seq<Name>, name: Name)
    requires Clean(stack) && CleanName(name) && cur + |name| + 1 < pwd.Length && cur == |Render(stack)|
    requires pwd[0..cur] == Render(stack) && pwd[cur..cur + |name| + 1] == name + "/" && pwd[cur + |name| + 1] == EOS
    ensures Pwd(pwd, cur + |name| + 1, stack + [name])
  {
    hide Render;
    RenderPush(stack, name);
    assert pwd[0..cur + |name| + 1] == pwd[0..cur] + pwd[cur..cur + |name| + 1] == Render(stack) + (name + "/");
    assert Render(stack + [name]) == Render(stack) + (name + "/");
    assert Clean(stack + [name]);
    RenderClean(stack + [name]);
  }

  /** One name copied behind the working directory together with the separator after it. */
  method GoDown(pwd: array<char>, cur: nat, ghost stack: seq<Name>, path: array<char>, at: nat, len: nat, ghost s: string)
    returns (next: nat)
    requires Pwd(pwd, cur, stack) && pwd != path && Holds(path, at, s) && 0 < len <= |s| && cur + len < pwd.Length
    requires CleanName(s[..len - 1]) && s[len - 1] == '/'
    modifies pwd
    ensures Pwd(pwd, next, stack + [s[..len - 1]]) && next == cur + len
  {
    hide Render;
    ghost var name := s[..len - 1];
    ghost var was := pwd[..];
    StrNCpy(pwd, cur, path, at, len + 1, s);
    next := cur + len;
    assert pwd[cur..cur + len] == name + "/" by {
      assert s[..len] == name + "/";
    }
    assert pwd[0..cur] == was[0..cur] == Render(stack);
    PwdPush(pwd, cur, stack, name);
  }

  /** The last name of a path, which no separator follows. */
  method GoLast(pwd: array<char>, cur: nat, ghost stack: seq<Name>, path: array<char>, at: nat, ghost name: Name) returns (next: nat)
    requires Pwd(pwd, cur, stack) && pwd != path && Holds(path, at, name) && CleanName(name) && cur + |name| + 1 < pwd.Length
    modifies pwd
    ensures Pwd(pwd, next, stack + [name])
  {
    hide Render;
    ghost var was := pwd[..];
    StrCpy(pwd, cur, path, at, name);
    var len := StrLen(pwd, cur, name);
    ghost var copied := pwd[..];
    next := cur + len;
    pwd[next] := '/';
    next := next + 1;
    pwd[next] := EOS;
    assert pwd[0..cur] == copied[0..cur] == was[0..cur] == Render(stack);
    assert pwd[cur..next] == copied[cur..cur + |name|] + "/";
    PwdPush(pwd, cur, stack, name);
  }

  /** One round of the loop of `abspath`: the name before the separator at place `ptr`. */
  method FollowName(pwd: array<char>, cur: nat, ghost stack: seq<Name>, path: array<char>, at: nat, ptr: nat, ghost rest: string)
    returns (next: nat)
    requires pwd != path && Pwd(pwd, cur, stack) && Holds(path, at, rest) && cur + |rest| + 1 < pwd.Length
    requires at <= ptr && FirstSep(rest) == Some(ptr - at)
    modifies pwd, path
    ensures Pwd(pwd, next, Follow(stack, rest[..ptr - at]))
    ensures Holds(path, ptr + 1, rest[ptr - at + 1..]) && next <= cur + (ptr - at + 1)
  {
    hide Pwd, Holds, Render, FirstSep;
    var len := ptr - at + 1;
    ghost var name := rest[..len - 1];
    ghost var was := path[..];
    HoldsBounds(path, at, rest);
    path[ptr] := '/';
    HoldsSep(path, was, at, rest, ptr);
    ghost var marked := rest[len - 1 := '/'];
    var stays := StartsWith(path, at, "./", marked);
    var up := StartsWith(path, at, "../", marked);
    NameIs(rest, len - 1);
    HoldsTail(path, at, marked, len);
    PwdEnd(pwd, cur, stack);
    next := cur;
    if stays {
    } else if up {
      next := GoUp(pwd, cur, stack);
      PwdEnd(pwd, next, Follow(stack, ".."));
      UpShorter(stack);
    } else {
      HoldsBounds(path, at, marked);
      assert marked[..len - 1] == name && CleanName(name);
      next := GoDown(pwd, cur, stack, path, at, len, marked);
    }
  }

  lemma PwdEnd(pwd: array<char>, cur: nat, stack: seq<Name>)
    requires Pwd(pwd, cur, stack)
    ensures cur == |Render(stack)|
  {
  }

  lemma HoldsBounds(path: array<char>, at: nat, s: string)
    requires Holds(path, at, s)
    ensures at + |s| < path.Length && path[at..at + |s|] == s && path[at + |s|] == EOS && forall i | 0 <= i < |s| :: s[i] != EOS
  {
  }

  /** The loop of `abspath` over the names that a separator follows, from place `from` of the path
      on; `at` is where the last name begins. */
  method FollowNames(pwd: array<char>, cur: nat, ghost stack: seq<Name>, path: array<char>, from: nat, ghost s: string)
    returns (next: nat, at: nat, ghost reached: seq<Name>, ghost rest: string)
    requires pwd != path && Pwd(pwd, cur, stack) && Holds(path, from, s) && cur + |s| + 1 < pwd.Length
    modifies pwd, path
    ensures Pwd(pwd, next, reached) && Holds(path, at, rest) && next + |rest| + 1 < pwd.Length
    ensures FirstSep(rest).None? && Walk(stack, s) == Walk(reached, rest)
  {
    hide Pwd, Holds, Render, FirstSep, Follow, Walk;
    next, at, reached, rest := cur, from, stack, s;
    HoldsBounds(path, at, rest);
    CharAt(path, at, rest, 0);
    while path[at] != EOS
      invariant Pwd(pwd, next, reached) && Holds(path, at, rest) && next + |rest| + 1 < pwd.Length && at < path.Length
      invariant Walk(stack, s) == Walk(reached, rest)
      invariant path[at] == EOS <==> |rest| == 0
      decreases |rest|
    {
      var ptr := StrSep(path, at, rest);
      if ptr == -1 {
        return;
      }
      next := FollowName(pwd, next, reached, path, at, ptr, rest);
      WalkStep(reached, rest, ptr - at);
      reached := Follow(reached, rest[..ptr - at]);
      rest := rest[ptr - at + 1..];
      at := ptr + 1;
      HoldsBounds(path, at, rest);
      CharAt(path, at, rest, 0);
    }
    FirstSepEmpty(rest);
  }

  lemma WalkStep(stack: seq<Name>, s: string, k: nat)
    requires FirstSep(s) == Some(k)
    ensures k < |s| && Walk(stack, s) == Walk(Follow(stack, s[..k]), s[k + 1..])
  {
  }

  lemma FirstSepEmpty(s: string)
    requires |s| == 0
    ensures FirstSep(s) == None
  {
  }

  lemma HoldsSep(path: array<char>, was: seq<char>, at: nat, rest: string, ptr: nat)
    requires |was| == path.Length && at + |rest| < path.Length && was[at..at + |rest|] == rest && was[at + |rest|] == EOS
    requires (forall i | 0 <= i < |rest| :: rest[i] != EOS) && at <= ptr < at + |rest| && path[..] == was[ptr := '/']
    ensures Holds(path, at, rest[ptr - at := '/'])
  {
    assert path[at..at + |rest|] == path[..][at..at + |rest|] == rest[ptr - at := '/'];
    assert path[at + |rest|] == path[..][at + |rest|];
  }

  lemma HoldsTail(path: array<char>, at: nat, s: string, len: nat)
    requires Holds(path, at, s) && len <= |s|
    ensures Holds(path, at + len, s[len..])
  {
    assert path[at + len..at + |s|] == path[at..at + |s|][len..];
  }

  /** The comparisons with "./" and "../" find exactly the names "." and "..". */
  lemma NameIs(rest: string, k: nat)
    requires FirstSep(rest) == Some(k)
    ensures var marked := rest[k := '/'];
      && ("./" <= marked <==> rest[..k] == ".") && ("../" <= marked <==> rest[..k] == "..")
      && marked[k + 1..] == rest[k + 1..]
  {
    var marked := rest[k := '/'];
    assert forall i | 0 <= i < k :: marked[i] == rest[i] && marked[i] != '/';
    if "./" <= marked {
      assert marked[1] == '/' && marked[0] == '.';
      assert k == 1;
    }
    if "../" <= marked {
      assert marked[2] == '/' && marked[1] == '.' && marked[0] == '.';
      assert k == 2;
    }
    if rest[..k] == "." {
      assert marked[..2] == "./";
    }
    if rest[..k] == ".." {
      assert marked[..3] == "../";
    }
  }

  lemma UpShorter(stack: seq<Name>)
    ensures |Render(Follow(stack, ".."))| <= |Render(stack)|
  {
  }

  /** `abspath`: the buffer then holds the directory the path leads to.  It fits when there is
      room for the directory and the whole path behind it. */
  method ChangeDirectory(pwd: array<char>, ghost stack: seq<Name>, path: array<char>, ghost s: string) returns (end: nat)
    requires pwd != path && Pwd(pwd, |Render(stack)|, stack) && Holds(path, 0, s) && |Render(stack)| + |s| + 1 < pwd.Length
    modifies pwd, path
    ensures Pwd(pwd, end, AbsPath(stack, s))
  {
    var cur;
    var from := 0;
    ghost var start, rest := stack, s;
    CharAt(path, 0, s, 0);
    if IsSeparator(path[0]) {
      ghost var was := pwd[..];
      cur := 1;
      pwd[cur] := EOS;
      start, rest, from := [], s[1..], 1;
      RenderStart(stack);
      assert pwd[0..1] == was[0..|Render(stack)|][..1] == "/";
      HoldsTail(path, 0, s, 1);
    } else {
      var last := StrRSep(pwd, Render(stack));
      assert Render(stack) + "" == Render(stack);
      LastSep(stack, "", last);
      cur := last + 1;
      pwd[cur] := EOS;
    }
    var at;
    ghost var reached;
    cur, at, reached, rest := FollowNames(pwd, cur, start, path, from, rest);
    assert AbsPath(stack, s) == Walk(reached, rest);
    end := FollowLast(pwd, cur, reached, path, at, rest);
  }

  /** What `abspath` does with the last name. */
  method FollowLast(pwd: array<char>, cur: nat, ghost stack: seq<Name>, path: array<char>, at: nat, ghost rest: string) returns (end: nat)
    requires pwd != path && Pwd(pwd, cur, stack) && Holds(path, at, rest) && cur + |rest| + 1 < pwd.Length && FirstSep(rest).None?
    modifies pwd
    ensures Pwd(pwd, end, Walk(stack, rest))
  {
    end := cur;
    CharAt(path, at, rest, 0);
    if path[at] == EOS {
      return;
    }
    assert CleanName(rest);
    var here := IsWord(path, at, ".", rest);
    if here {
      return;
    }
    var up := IsWord(path, at, "..", rest);
    if !up {
      end := GoLast(pwd, cur, stack, path, at, rest);
      return;
    }
    end := GoUp(pwd, cur, stack);
  }

  lemma {:induction false} RenderStart(stack: seq<Name>)
    ensures Render(stack)[0] == '/'
  {
    if stack == [] {
    } else {
      RenderStart(stack[..|stack| - 1]);
    }
  }

  /** `strcmp` with a constant, as far as `abspath` looks at it. */
  method IsWord(a: array<char>, at: nat, word: string, ghost s: string) returns (same: bool)
    requires Holds(a, at, s) && forall i | 0 <= i < |word| :: word[i] != EOS
    ensures same <==> s == word
  {
    var i := 0;
    while i < |word|
      invariant 0 <= i <= |word| && i <= |s| && s[..i] == word[..i]
    {
      CharAt(a, at, s, i);
      if a[at + i] != word[i] {
        return false;
      }
      i := i + 1;
    }
    CharAt(a, at, s, i);
    return a[at + i] == EOS;
  }
}
