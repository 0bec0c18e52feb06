/** `expand_path` of epw/core.py: `os.path.expanduser` followed by
    `os.path.abspath` (joining with the working directory, then
    `os.path.normpath`), with the POSIX rules of Python's `posixpath`.
    The environment the calls consult (HOME or the password entry of the
    current user, the password database, the working directory) is a
    parameter. */
module PathExpansion {
  import opened Wrappers

  /** What `expanduser` and `abspath` read from the process:
      `home` is `$HOME`, or when unset the home directory of the current
      user in the password database (`None` when that lookup fails too);
      `users` maps user names to home directories; `cwd` is `os.getcwd()`. */
  datatype Env = Env(home: Option<string>, users: map<string, string>, cwd: string)

  predicate IsAbs(p: string)
  {
    p != [] && p[0] == '/'
  }

  // ---------------------------------------------------------------------
  // str.split('/') and '/'.join

  /** `s.split('/')`: never empty, and `""` gives `[""]`. */
  function Split(s: string): (r: seq<string>)
    ensures r != []
    decreases |s|
  {
    if s == [] then [""]
    else if s[0] == '/' then [""] + Split(s[1..])
    else var t := Split(s[1..]); [[s[0]] + t[0]] + t[1..]
  }

  /** `'/'.join(cs)` for a non-empty list. */
  function Join(cs: seq<string>): string
    requires cs != []
    decreases |cs|
  {
    if |cs| == 1 then cs[0] else cs[0] + "/" + Join(cs[1..])
  }

  predicate NoSlash(c: string)
  {
    forall q :: 0 <= q < |c| ==> c[q] != '/'
  }

  /** The pieces `split` returns hold no separator. */
  lemma {:induction false} SplitNoSlash(s: string)
    ensures forall k :: 0 <= k < |Split(s)| ==> NoSlash(Split(s)[k])
    decreases |s|
  {
    if s != [] {
      SplitNoSlash(s[1..]);
      if s[0] != '/' {
        var t := Split(s[1..]);
        assert NoSlash([s[0]] + t[0]) by {
          forall q | 0 <= q < |[s[0]] + t[0]| ensures ([s[0]] + t[0])[q] != '/' {
            if q > 0 {
              assert ([s[0]] + t[0])[q] == t[0][q - 1];
            }
          }
        }
      }
    }
  }

  /** Joining what `split` returns gives the string back. */
  lemma {:induction false} JoinSplit(s: string)
    ensures Join(Split(s)) == s
    decreases |s|
  {
    if s != [] {
      JoinSplit(s[1..]);
      var t := Split(s[1..]);
      if s[0] == '/' {
        assert Split(s)[1..] == t;
      } else {
        var r := Split(s);
        if |t| == 1 {
          assert r == [[s[0]] + t[0]];
        } else {
          assert r[1..] == t[1..];
          assert Join(t) == t[0] + "/" + Join(t[1..]);
        }
      }
    }
  }

  /** `split` of a piece without separator glued to the front of `s`. */
  lemma {:induction false} SplitPrefix(c: string, s: string)
    requires NoSlash(c)
    ensures Split(c + s) == [c + Split(s)[0]] + Split(s)[1..]
    decreases |c|
  {
    if c != [] {
      assert (c + s)[1..] == c[1..] + s;
      SplitPrefix(c[1..], s);
      assert [c[0]] + (c[1..] + Split(s)[0]) == c + Split(s)[0];
    } else {
      assert c + s == s;
      assert c + Split(s)[0] == Split(s)[0];
      assert [Split(s)[0]] + Split(s)[1..] == Split(s);
    }
  }

  /** Splitting what `join` built from separator-free pieces gives the
      pieces back. */
  lemma {:induction false} SplitJoin(cs: seq<string>)
    requires cs != [] && forall k :: 0 <= k < |cs| ==> NoSlash(cs[k])
    ensures Split(Join(cs)) == cs
    decreases |cs|
  {
    if |cs| == 1 {
      SplitPrefix(cs[0], "");
      assert cs[0] + "" == cs[0];
    } else {
      SplitJoin(cs[1..]);
      var rest := Join(cs[1..]);
      assert cs[0] + "/" + rest == cs[0] + ("/" + rest);
      SplitPrefix(cs[0], "/" + rest);
      assert ("/" + rest)[1..] == rest;
      assert Split("/" + rest) == [""] + cs[1..];
      assert cs[0] + "" == cs[0];
      assert cs == [cs[0]] + cs[1..];
    }
  }

  // ---------------------------------------------------------------------
  // os.path.normpath

  /** A component that survives normalisation of an absolute path. */
  predicate Proper(c: string)
  {
    c != "" && c != "." && c != ".." && NoSlash(c)
  }

  predicate AllProper(cs: seq<string>)
  {
    forall k :: 0 <= k < |cs| ==> Proper(cs[k])
  }

  /** One turn of the component loop of `normpath`: `''` and `'.'` are
      dropped, `'..'` removes the previous component unless there is none
      to remove (kept in a relative path, dropped in an absolute one) or the
      previous one is itself `'..'`. */
  function Step(stack: seq<string>, comp: string, rooted: bool): seq<string>
  {
    if comp == "" || comp == "." then stack
    else if comp != ".." || (!rooted && stack == []) || (stack != [] && stack[|stack| - 1] == "..") then stack + [comp]
    else if stack != [] then stack[..|stack| - 1]
    else stack
  }

  function Collapse(stack: seq<string>, comps: seq<string>, rooted: bool): seq<string>
    decreases |comps|
  {
    if comps == [] then stack else Collapse(Step(stack, comps[0], rooted), comps[1..], rooted)
  }

  /** Number of leading slashes `normpath` keeps: two exactly when the path
      starts with two and not three, one for any other absolute path. */
  function Lead(p: string): (n: nat)
    ensures n <= 2 && n <= |p|
    ensures n > 0 <==> IsAbs(p)
  {
    if |p| >= 2 && p[0] == '/' && p[1] == '/' && (|p| == 2 || p[2] != '/') then 2
    else if IsAbs(p) then 1
    else 0
  }

  function Slashes(n: nat): (r: string)
    ensures |r| == n && forall q :: 0 <= q < n ==> r[q] == '/'
  {
    if n == 0 then "" else "/" + Slashes(n - 1)
  }

  /** `os.path.normpath(p)`. */
  function NormPath(p: string): string
  {
    if p == [] then "."
    else
      var stack := Collapse([], Split(p), Lead(p) > 0);
      var r := Slashes(Lead(p)) + (if stack == [] then "" else Join(stack));
      if r == [] then "." else r
  }

  /** The normal form of an absolute path: its leading slashes as `normpath`
      keeps them, then nothing or separator-free components none of which
      is empty, `.` or `..`. */
  predicate IsNormalAbs(p: string)
  {
    Lead(p) > 0 && (p[Lead(p)..] == [] || AllProper(Split(p[Lead(p)..])))
  }

  /** In an absolute path, the loop never keeps an empty, `.` or `..`
      component, nor one with a separator. */
  lemma {:induction false} CollapseProper(stack: seq<string>, comps: seq<string>)
    requires AllProper(stack)
    requires forall k :: 0 <= k < |comps| ==> NoSlash(comps[k])
    ensures AllProper(Collapse(stack, comps, true))
    decreases |comps|
  {
    if comps != [] {
      var next := Step(stack, comps[0], true);
      assert AllProper(next);
      CollapseProper(next, comps[1..]);
    }
  }

  /** Proper components are kept as they are, in order. */
  lemma {:induction false} CollapseKeeps(stack: seq<string>, comps: seq<string>)
    requires AllProper(stack) && AllProper(comps)
    ensures Collapse(stack, comps, true) == stack + comps
    decreases |comps|
  {
    if comps != [] {
      assert Step(stack, comps[0], true) == stack + [comps[0]];
      CollapseKeeps(stack + [comps[0]], comps[1..]);
      assert stack + [comps[0]] + comps[1..] == stack + comps;
    } else {
      assert stack + comps == stack;
    }
  }

  /** Leading separators only add empty components, which the loop drops. */
  lemma {:induction false} CollapseSkipsLead(n: nat, s: string)
    ensures Collapse([], Split(Slashes(n) + s), true) == Collapse([], Split(s), true)
    decreases n
  {
    if n > 0 {
      var t := Slashes(n - 1) + s;
      assert Slashes(n) + s == "/" + t;
      assert ("/" + t)[1..] == t;
      assert Split("/" + t) == [""] + Split(t);
      CollapseSkipsLead(n - 1, s);
    } else {
      assert Slashes(n) + s == s;
    }
  }

  /** `Lead` of the normal form built from `n` slashes and a joined
      list of proper components. */
  lemma LeadOfNormal(n: nat, body: string)
    requires 1 <= n <= 2
    requires body == [] || body[0] != '/'
    ensures Lead(Slashes(n) + body) == n
    ensures (Slashes(n) + body)[n..] == body
  {
    var p := Slashes(n) + body;
    assert p[0] == '/';
    if n == 2 {
      assert p[1] == '/';
      assert |p| == 2 || p[2] == body[0];
    } else {
      assert |p| == 1 || p[1] == body[0];
    }
  }

  /** `normpath` of an absolute path is in normal form. */
  lemma NormPathNormal(p: string)
    requires IsAbs(p)
    ensures IsNormalAbs(NormPath(p))
  {
    var stack := Collapse([], Split(p), true);
    SplitNoSlash(p);
    CollapseProper([], Split(p));
    var body := if stack == [] then "" else Join(stack);
    NormalBody(stack);
    LeadOfNormal(Lead(p), body);
    assert NormPath(p) == Slashes(Lead(p)) + body;
  }

  /** The joined proper components do not start with a separator and split
      back into proper components. */
  lemma NormalBody(stack: seq<string>)
    requires AllProper(stack)
    ensures var body := if stack == [] then "" else Join(stack);
            && (body == [] || body[0] != '/')
            && (body == [] || AllProper(Split(body)))
  {
    if stack != [] {
      assert forall k :: 0 <= k < |stack| ==> NoSlash(stack[k]);
      SplitJoin(stack);
      JoinStartsWithFirst(stack);
    }
  }

  /** The joined components start with the first component. */
  lemma JoinStartsWithFirst(cs: seq<string>)
    requires cs != [] && cs[0] != [] && cs[0][0] != '/'
    ensures Join(cs) != [] && Join(cs)[0] == cs[0][0]
  {
  }

  /** A path in normal form is left alone by `normpath`. */
  lemma NormPathFixed(p: string)
    requires IsNormalAbs(p)
    ensures NormPath(p) == p
  {
    var n := Lead(p);
    var body := p[n..];
    assert p == Slashes(n) + body;
    CollapseSkipsLead(n, body);
    if body == [] {
      assert Split(body) == [""];
      assert Collapse([], [""], true) == [];
    } else {
      CollapseKeeps([], Split(body));
      assert [] + Split(body) == Split(body);
      JoinSplit(body);
    }
  }

  // ---------------------------------------------------------------------
  // os.path.expanduser, os.path.abspath, expand_path

  /** Index of the first `/` at or after `from`, or `|s|`. */
  function SlashFrom(s: string, from: nat): (i: nat)
    requires from <= |s|
    ensures from <= i <= |s| && (i < |s| ==> s[i] == '/')
    ensures forall q :: from <= q < i ==> s[q] != '/'
    decreases |s| - from
  {
    if from == |s| || s[from] == '/' then from else SlashFrom(s, from + 1)
  }

  /** `s.rstrip('/')`. */
  function RStripSlash(s: string): (r: string)
    ensures |r| <= |s| && r == s[..|r|]
    ensures r == [] || r[|r| - 1] != '/'
    ensures forall q :: |r| <= q < |s| ==> s[q] == '/'
    decreases |s|
  {
    if s != [] && s[|s| - 1] == '/' then RStripSlash(s[..|s| - 1]) else s
  }

  /** `os.path.expanduser(path)`: a leading `~` (the current user) or
      `~name` up to the first `/` is replaced by that user's home directory
      without trailing slashes; the path is returned unchanged when it does
      not start with `~` or the user is unknown; an empty result becomes
      `/`. */
  function ExpandUser(path: string, env: Env): string
  {
    if path == [] || path[0] != '~' then path
    else
      var i := SlashFrom(path, 1);
      var userhome := if i == 1 then env.home
                      else if path[1..i] in env.users then Some(env.users[path[1..i]])
                      else None;
      match userhome
      case None => path
      case Some(h) =>
        var r := RStripSlash(h) + path[i..];
        if r == [] then "/" else r
  }

  /** `os.path.join(a, b)` of two paths. */
  function JoinPath(a: string, b: string): string
  {
    if IsAbs(b) then b
    else if a == [] || a[|a| - 1] == '/' then a + b
    else a + "/" + b
  }

  /** `os.path.abspath(path)` in the working directory `cwd`. */
  function AbsPath(path: string, cwd: string): (r: string)
    requires IsAbs(cwd)
    ensures IsNormalAbs(r)
  {
    var joined := if IsAbs(path) then path else JoinPath(cwd, path);
    NormPathNormal(joined);
    NormPath(joined)
  }

  /** `expand_path(path)`: `None` stays `None`, every path becomes an
      absolute path in normal form. */
  function ExpandPath(path: Option<string>, env: Env): (r: Option<string>)
    requires IsAbs(env.cwd)
    ensures r.None? <==> path.None?
    ensures r.Some? ==> IsNormalAbs(r.value)
  {
    match path
    case None => None
    case Some(p) => Some(AbsPath(ExpandUser(p, env), env.cwd))
  }

  /** Expanding an expanded path changes nothing. */
  lemma ExpandPathIdempotent(path: Option<string>, env: Env)
    requires IsAbs(env.cwd)
    ensures ExpandPath(ExpandPath(path, env), env) == ExpandPath(path, env)
  {
    if path.Some? {
      var r := ExpandPath(path, env).value;
      assert ExpandUser(r, env) == r;
      NormPathFixed(r);
    }
  }

  /** `split` of two texts joined by a separator is the pieces of the
      first, then those of the second. */
  lemma {:induction false} SplitConcat(a: string, b: string)
    ensures Split(a + "/" + b) == Split(a) + Split(b)
    decreases |a|
  {
    if a == [] {
      assert a + "/" + b == "/" + b;
      SplitSlash(b);
      assert Split(a) == [""];
    } else {
      SplitConcat(a[1..], b);
      SplitConcatStep(a[0], a[1..], b);
      assert a == [a[0]] + a[1..];
    }
  }

  /** The inductive step of `SplitConcat`: one more character in front. */
  lemma SplitConcatStep(c: char, x: string, b: string)
    requires Split(x + "/" + b) == Split(x) + Split(b)
    ensures Split([c] + x + "/" + b) == Split([c] + x) + Split(b)
  {
    assert [c] + x + "/" + b == [c] + (x + "/" + b);
    if c == '/' {
      assert [c] == "/";
      SplitSlash(x + "/" + b);
      SplitSlash(x);
    } else {
      SplitCharConcat(c, x, b);
    }
  }

  /** The step for a character other than the separator: it joins the
      first piece. */
  lemma SplitCharConcat(c: char, x: string, b: string)
    requires c != '/'
    requires Split(x + "/" + b) == Split(x) + Split(b)
    ensures Split([c] + (x + "/" + b)) == Split([c] + x) + Split(b)
  {
    var t, u := Split(x), Split(b);
    SplitChar(c, x + "/" + b);
    SplitChar(c, x);
    FrontGlued([c], t, u);
  }

  /** Gluing `p` to the first piece of `t + u`, for a non-empty `t`. */
  lemma FrontGlued(p: string, t: seq<string>, u: seq<string>)
    requires t != []
    ensures [p + (t + u)[0]] + (t + u)[1..] == ([p + t[0]] + t[1..]) + u
  {
    assert (t + u)[0] == t[0] && (t + u)[1..] == t[1..] + u;
  }

  /** `split` of a text that starts with a separator. */
  lemma SplitSlash(x: string)
    ensures Split("/" + x) == [""] + Split(x)
  {
    assert ("/" + x)[1..] == x;
  }

  /** `split` of a text that starts with another character. */
  lemma SplitChar(c: char, x: string)
    requires c != '/'
    ensures Split([c] + x) == [[c] + Split(x)[0]] + Split(x)[1..]
  {
    assert ([c] + x)[1..] == x;
  }

  /** An empty text, or one that starts with a separator, splits into
      an empty first piece. */
  lemma SplitFirstEmpty(b: string)
    requires b == [] || b[0] == '/'
    ensures Split(b)[0] == ""
  {
  }

  /** A text that ends with a separator splits into an empty last piece. */
  lemma SplitLastEmpty(b: string)
    requires b != [] && b[|b| - 1] == '/'
    ensures Split(b)[|Split(b)| - 1] == ""
  {
    var a := b[..|b| - 1];
    assert b == a + "/" + "";
    SplitConcat(a, "");
    assert Split("") == [""];
  }

  /** A text made of proper pieces is not empty and neither starts nor
      ends with a separator. */
  lemma ProperEnds(b: string)
    requires AllProper(Split(b))
    ensures b != [] && b[0] != '/' && b[|b| - 1] != '/'
  {
    var cs := Split(b);
    assert Proper(cs[0]) && Proper(cs[|cs| - 1]);
    if b == [] || b[0] == '/' {
      SplitFirstEmpty(b);
    } else if b[|b| - 1] == '/' {
      SplitLastEmpty(b);
    }
  }

  /** An absolute path is its leading slashes followed by the rest. */
  lemma LeadSplit(a: string)
    requires IsAbs(a)
    ensures a == Slashes(Lead(a)) + a[Lead(a)..]
  {
    var n := Lead(a);
    assert a[..n] == Slashes(n) by {
      if n == 2 { assert Slashes(2) == "//"; } else { assert Slashes(1) == "/"; }
    }
    assert a == a[..n] + a[n..];
  }

  /** One or two slashes followed by proper pieces is a normal form. */
  lemma NormalOf(n: nat, body: string)
    requires 1 <= n <= 2 && AllProper(Split(body))
    ensures IsNormalAbs(Slashes(n) + body)
  {
    ProperEnds(body);
    LeadOfNormal(n, body);
  }

  /** A path in normal form joined with proper pieces, as `os.path.join`
      does, is in normal form. */
  lemma NormalJoin(a: string, p: string)
    requires IsNormalAbs(a) && AllProper(Split(p))
    ensures IsNormalAbs(if a[|a| - 1] == '/' then a + p else a + "/" + p)
  {
    LeadSplit(a);
    if a[Lead(a)..] == [] {
      assert a + p == Slashes(Lead(a)) + p;
      NormalOf(Lead(a), p);
    } else {
      NormalJoinBody(a, p);
    }
  }

  /** The case of `NormalJoin` where the path has components: the new
      pieces follow a separator. */
  lemma NormalJoinBody(a: string, p: string)
    requires IsNormalAbs(a) && AllProper(Split(p))
    requires a == Slashes(Lead(a)) + a[Lead(a)..] && a[Lead(a)..] != []
    ensures a[|a| - 1] != '/' && IsNormalAbs(a + "/" + p)
  {
    var n := Lead(a);
    var body := a[n..];
    ProperEnds(body);
    assert a[|a| - 1] == body[|body| - 1];
    ProperJoined(body, p);
    assert a + "/" + p == Slashes(n) + (body + "/" + p);
    NormalOf(n, body + "/" + p);
  }

  /** Two texts of proper pieces joined by a separator are made of proper
      pieces. */
  lemma ProperJoined(body: string, p: string)
    requires AllProper(Split(body)) && AllProper(Split(p))
    ensures AllProper(Split(body + "/" + p))
  {
    SplitConcat(body, p);
    AllProperConcat(Split(body), Split(p));
  }

  lemma AllProperConcat(x: seq<string>, y: seq<string>)
    requires AllProper(x) && AllProper(y)
    ensures AllProper(x + y)
  {
    forall k | 0 <= k < |x + y| ensures Proper((x + y)[k]) {
      if k < |x| { assert (x + y)[k] == x[k]; } else { assert (x + y)[k] == y[k - |x|]; }
    }
  }

  /** `abspath` of a relative path of proper pieces in a working directory
      in normal form is the working directory, a separator unless it
      already ends with one, and the path. */
  lemma AbsPathRelative(p: string, cwd: string)
    requires IsNormalAbs(cwd) && AllProper(Split(p))
    ensures AbsPath(p, cwd) == if cwd[|cwd| - 1] == '/' then cwd + p else cwd + "/" + p
  {
    ProperEnds(p);
    NormalJoin(cwd, p);
    NormPathFixed(if cwd[|cwd| - 1] == '/' then cwd + p else cwd + "/" + p);
  }

  /** The loop over two lists of components one after the other: the
      second goes on from the stack the first left. */
  lemma {:induction false} CollapseAppend(stack: seq<string>, x: seq<string>, y: seq<string>, rooted: bool)
    ensures Collapse(stack, x + y, rooted) == Collapse(Collapse(stack, x, rooted), y, rooted)
    decreases |x|
  {
    if x == [] {
      assert x + y == y;
    } else {
      assert (x + y)[0] == x[0] && (x + y)[1..] == x[1..] + y;
      CollapseAppend(Step(stack, x[0], rooted), x[1..], y, rooted);
    }
  }

  /** In an absolute path, a proper component followed by `..` cancels
      out: `..` removes exactly that component and nothing before it. */
  lemma CollapseIntoAndOut(stack: seq<string>, c: string, rest: seq<string>)
    requires AllProper(stack) && Proper(c)
    ensures Collapse(stack, [c, ".."] + rest, true) == Collapse(stack, rest, true)
  {
    var comps := [c, ".."] + rest;
    assert comps[0] == c && comps[1..] == [".."] + rest;
    assert Step(stack, c, true) == stack + [c];
    assert ([".."] + rest)[0] == ".." && ([".."] + rest)[1..] == rest;
    assert Step(stack + [c], "..", true) == stack;
  }

  /** A proper component splits as itself. */
  lemma SplitProper(c: string)
    requires NoSlash(c)
    ensures Split(c) == [c]
  {
    SplitPrefix(c, "");
    assert c + "" == c;
  }

  /** The pieces of `body/c/..`: those of `body`, then `c` and `..`. */
  lemma SplitIntoAndOut(body: string, c: string)
    requires NoSlash(c)
    ensures Split(body + "/" + (c + "/..")) == Split(body) + [c, ".."]
  {
    assert c + "/" + ".." == c + "/..";
    SplitConcat(c, "..");
    SplitProper(c);
    SplitProper("..");
    assert [c] + [".."] == [c, ".."];
    SplitConcat(body, c + "/..");
  }

  /** `abspath` of `c/..`, for any proper component `c`, is the working
      directory itself: `..` goes back up exactly one level. */
  lemma AbsPathIntoAndOut(cwd: string, c: string)
    requires IsNormalAbs(cwd) && Proper(c)
    ensures AbsPath(c + "/..", cwd) == cwd
  {
    var n := Lead(cwd);
    var body := cwd[n..];
    var up := c + "/..";
    assert up[0] == c[0];
    LeadSplit(cwd);
    if body == [] {
      IntoAndOutAtRoot(cwd, c);
    } else {
      IntoAndOutBelow(cwd, c);
    }
  }

  /** `AbsPathIntoAndOut` when the working directory is `/` or `//`. */
  lemma IntoAndOutAtRoot(cwd: string, c: string)
    requires IsNormalAbs(cwd) && Proper(c)
    requires cwd == Slashes(Lead(cwd)) + cwd[Lead(cwd)..] && cwd[Lead(cwd)..] == []
    ensures AbsPath(c + "/..", cwd) == cwd
  {
    var n := Lead(cwd);
    var up := c + "/..";
    var joined := cwd + up;
    assert cwd == Slashes(n);
    assert up[0] == c[0];
    assert JoinPath(cwd, up) == joined;
    assert joined == Slashes(n) + up;
    LeadOfNormal(n, up);
    CollapseSkipsLead(n, up);
    SplitIntoAndOut("", c);
    assert "" + "/" + up == "/" + up;
    assert Split("/" + up) == [""] + Split(up) by {
      assert ("/" + up)[1..] == up;
    }
    assert Split(up) == [c, ".."];
    CollapseIntoAndOut([], c, []);
    assert [c, ".."] + [] == [c, ".."];
    assert Collapse([], [c, ".."], true) == [];
    assert Slashes(n) + "" == cwd;
  }

  /** `AbsPathIntoAndOut` when the working directory has components. */
  lemma IntoAndOutBelow(cwd: string, c: string)
    requires IsNormalAbs(cwd) && Proper(c)
    requires cwd == Slashes(Lead(cwd)) + cwd[Lead(cwd)..] && cwd[Lead(cwd)..] != []
    ensures AbsPath(c + "/..", cwd) == cwd
  {
    var n := Lead(cwd);
    var body := cwd[n..];
    var up := c + "/..";
    ProperEnds(body);
    assert cwd[|cwd| - 1] == body[|body| - 1];
    assert up[0] == c[0];
    var tail := body + "/" + up;
    assert JoinPath(cwd, up) == Slashes(n) + tail;
    LeadOfNormal(n, tail);
    CollapseSkipsLead(n, tail);
    IntoAndOutBody(body, c);
    JoinSplit(body);
  }

  /** The components of `body/c/..` collapse to those of `body`. */
  lemma IntoAndOutBody(body: string, c: string)
    requires AllProper(Split(body)) && Proper(c)
    ensures Collapse([], Split(body + "/" + (c + "/..")), true) == Split(body)
  {
    SplitIntoAndOut(body, c);
    CollapseAppend([], Split(body), [c, ".."], true);
    CollapseKeeps([], Split(body));
    assert [] + Split(body) == Split(body);
    CollapseIntoAndOut(Split(body), c, []);
    assert [c, ".."] + [] == [c, ".."];
  }

  /** Stripping the trailing slashes of a path in normal form leaves it
      alone, unless it is `/` or `//`, which become empty. */
  lemma StripNormal(h: string)
    requires IsNormalAbs(h)
    ensures RStripSlash(h) == if h[|h| - 1] == '/' then "" else h
  {
    var n := Lead(h);
    LeadSplit(h);
    if h[n..] != [] {
      ProperEnds(h[n..]);
      assert h[|h| - 1] == h[n..][|h[n..]| - 1];
    } else if n == 2 {
      assert h == "//" && h[..1] == "/";
      assert RStripSlash("/") == RStripSlash("");
    } else {
      assert h == "/";
      assert RStripSlash("/") == RStripSlash("");
    }
  }

  /** `expanduser` of `~/rest` with a home directory in normal form. */
  lemma HomeExpanded(rest: string, env: Env)
    requires env.home.Some? && IsNormalAbs(env.home.value)
    ensures var h := env.home.value;
            ExpandUser("~/" + rest, env) == if h[|h| - 1] == '/' then "/" + rest else h + "/" + rest
  {
    var h := env.home.value;
    StripNormal(h);
    assert "~/" + rest == "~" + ("/" + rest);
    ExpandUserHome("/" + rest, env);
  }

  /** A home directory in normal form followed by `/rest` of proper pieces
      is in normal form. */
  lemma HomeRestNormal(h: string, rest: string)
    requires IsNormalAbs(h) && AllProper(Split(rest))
    ensures IsNormalAbs(if h[|h| - 1] == '/' then "/" + rest else h + "/" + rest)
  {
    assert IsNormalAbs("/");
    NormalJoin(if h[|h| - 1] == '/' then "/" else h, rest);
  }

  /** `~/rest`, with `rest` of proper pieces and a home directory in
      normal form, expands to the home directory followed by `/rest`
      (the home directory `/` or `//` giving just `/rest`). */
  lemma ExpandHomePath(rest: string, env: Env)
    requires IsAbs(env.cwd) && env.home.Some? && IsNormalAbs(env.home.value)
    requires AllProper(Split(rest))
    ensures var h := env.home.value;
            ExpandPath(Some("~/" + rest), env) == Some(if h[|h| - 1] == '/' then "/" + rest else h + "/" + rest)
  {
    var h := env.home.value;
    HomeExpanded(rest, env);
    HomeRestNormal(h, rest);
    ExpandPathNormal("~/" + rest, env, if h[|h| - 1] == '/' then "/" + rest else h + "/" + rest);
  }

  /** A path whose `expanduser` is already in normal form expands to it. */
  lemma ExpandPathNormal(p: string, env: Env, x: string)
    requires IsAbs(env.cwd) && ExpandUser(p, env) == x && IsNormalAbs(x)
    ensures ExpandPath(Some(p), env) == Some(x)
  {
    AbsPathNormal(x, env.cwd);
  }

  /** `abspath` leaves a path in normal form alone. */
  lemma AbsPathNormal(x: string, cwd: string)
    requires IsAbs(cwd) && IsNormalAbs(x)
    ensures AbsPath(x, cwd) == x
  {
    NormPathFixed(x);
  }

  /** `~` followed by nothing or by `/...` becomes the current user's home
      directory (without its trailing slashes) followed by the rest. */
  lemma ExpandUserHome(rest: string, env: Env)
    requires rest == [] || rest[0] == '/'
    requires env.home.Some? && RStripSlash(env.home.value) + rest != []
    ensures ExpandUser("~" + rest, env) == RStripSlash(env.home.value) + rest
  {
    var path := "~" + rest;
    assert path[1..] == rest;
    var i := SlashFrom(path, 1);
    assert i == 1;
  }

  /** `normpath` of an absolute path given as its components: the first
      is empty (the leading slash), the rest go through the loop. */
  lemma NormPathOfComponents(cs: seq<string>)
    requires |cs| >= 2 && cs[0] == "" && cs[1] != ""
    requires forall k :: 0 <= k < |cs| ==> NoSlash(cs[k])
    requires Collapse([], cs, true) != []
    ensures NormPath(Join(cs)) == "/" + Join(Collapse([], cs, true))
  {
    SplitJoin(cs);
    JoinLeadOne(cs);
    assert Slashes(1) == "/";
  }

  /** Components starting with an empty one and then a non-empty one
      join into a path with exactly one leading slash. */
  lemma JoinLeadOne(cs: seq<string>)
    requires |cs| >= 2 && cs[0] == "" && cs[1] != ""
    requires forall k :: 0 <= k < |cs| ==> NoSlash(cs[k])
    ensures Join(cs) != [] && Lead(Join(cs)) == 1
  {
    var p := Join(cs);
    assert p == "" + "/" + Join(cs[1..]);
    var rest := cs[1..];
    assert rest != [] && rest[0] == cs[1];
    JoinStartsWithFirst(rest);
  }

  /** With home `/home/jack` and working directory `/bar`, `~/foo` becomes
      `/home/jack/foo`. */
  lemma ExpandHomeExample()
    ensures ExpandPath(Some("~/foo"), Env(Some("/home/jack"), map[], "/bar")) == Some("/home/jack/foo")
  {
    var env := Env(Some("/home/jack"), map[], "/bar");
    ExpandUserHome("/foo", env);
    assert RStripSlash("/home/jack") == "/home/jack";
    assert ExpandUser("~/foo", env) == "/home/jack/foo";
    HomeFooNormal();
  }

  /** `/home/jack/foo` is already normal. */
  lemma HomeFooNormal()
    ensures NormPath("/home/jack/foo") == "/home/jack/foo"
  {
    var cs := ["", "home", "jack", "foo"];
    assert Join(cs) == "/home/jack/foo";
    assert Collapse([], cs, true) == ["home", "jack", "foo"];
    assert Join(["home", "jack", "foo"]) == "home/jack/foo";
    NormPathOfComponents(cs);
  }

  /** With working directory `/bar`, `baz` becomes `/bar/baz`. */
  lemma ExpandRelativeExample()
    ensures ExpandPath(Some("baz"), Env(Some("/home/jack"), map[], "/bar")) == Some("/bar/baz")
  {
    var env := Env(Some("/home/jack"), map[], "/bar");
    assert ExpandUser("baz", env) == "baz";
    RelativeNormPath();
  }

  /** `normpath` of `/bar` joined with `baz`. */
  lemma RelativeNormPath()
    ensures NormPath(JoinPath("/bar", "baz")) == "/bar/baz"
  {
    var cs := ["", "bar", "baz"];
    RelativeJoined();
    RelativeCollapsed();
    NormPathOfComponents(cs);
  }

  /** `os.path.join("/bar", "baz")` as components. */
  lemma RelativeJoined()
    ensures JoinPath("/bar", "baz") == Join(["", "bar", "baz"])
  {
  }

  /** Neither component of `/bar/baz` is dropped. */
  lemma RelativeCollapsed()
    ensures Join(Collapse([], ["", "bar", "baz"], true)) == "bar/baz"
  {
    assert Collapse([], ["", "bar", "baz"], true) == ["bar", "baz"];
    assert Join(["bar", "baz"]) == "bar/baz";
  }

  /** With working directory `/bar`, `../tmp` becomes `/tmp`. */
  lemma ExpandParentExample()
    ensures ExpandPath(Some("../tmp"), Env(Some("/home/jack"), map[], "/bar")) == Some("/tmp")
  {
    var env := Env(Some("/home/jack"), map[], "/bar");
    assert ExpandUser("../tmp", env) == "../tmp";
    ParentNormPath();
  }

  /** `normpath` of `/bar` joined with `../tmp`. */
  lemma ParentNormPath()
    ensures NormPath(JoinPath("/bar", "../tmp")) == "/tmp"
  {
    var cs := ["", "bar", "..", "tmp"];
    ParentJoined();
    ParentCollapsed();
    NormPathOfComponents(cs);
  }

  /** `..` removes `bar`. */
  lemma ParentCollapsed()
    ensures Collapse([], ["", "bar", "..", "tmp"], true) == ["tmp"]
  {
  }

  /** `os.path.join("/bar", "../tmp")` as components. */
  lemma ParentJoined()
    ensures JoinPath("/bar", "../tmp") == Join(["", "bar", "..", "tmp"])
  {
  }
}
