/**
 The path normaliser (util/uri.go:14-55) and the segment count taken from its result in
 ServeFiles (webserver.go:381-412). Bytes are modelled as characters. Unlike section 5.2.4
 of RFC 3986, an excess `..` is an error and empty segments are dropped.
 */
module UrlPath {
  import opened Wrappers
  import opened Splitting

  /** Backslashes count as slashes. */
  function Forward(s: string): (r: string)
    ensures |r| == |s|
    ensures forall i :: 0 <= i < |s| ==> r[i] == if s[i] == '\\' then '/' else s[i]
  {
    seq(|s|, i requires 0 <= i < |s| => if s[i] == '\\' then '/' else s[i])
  }

  function Fragments(path: string): seq<string> {
    Split(Forward(path), '/')
  }

  predicate IsName(f: string) {
    f != "" && f != "." && f != ".."
  }

  /** The stack of names after reading `frags`, or nothing if a `..` finds it empty. */
  function Resolve(frags: seq<string>, stack: seq<string>): Option<seq<string>> {
    if frags == [] then Some(stack)
    else if IsName(frags[0]) then Resolve(frags[1..], stack + [frags[0]])
    else if frags[0] != ".." then Resolve(frags[1..], stack)
    else if stack == [] then None
    else Resolve(frags[1..], stack[..|stack| - 1])
  }

  predicate EndsWithSlash(path: string) {
    path != "" && path[|path| - 1] in {'/', '\\'}
  }

  function Rendered(names: seq<string>, slash: bool): string {
    "/" + Join(names, '/') + if slash then "/" else ""
  }

  /** `mode` < 0 removes a trailing slash, > 0 adds one, 0 keeps what there was. */
  function Sanitized(path: string, mode: int): Result<string, ()> {
    if path == "" then Ok("/")
    else
      match Resolve(Fragments(path), [])
      case None => Err(())
      case Some(names) => Ok(Rendered(names, names != [] && (mode > 0 || (mode == 0 && EndsWithSlash(path)))))
  }

  method SanitizeUrlPath(path0: string, trailingSlash: int) returns (r: Result<string, ()>)
    ensures r == Sanitized(path0, trailingSlash)
  {
    if |path0| == 0 {
      return Ok("/");
    }
    var path := Forward(path0);
    var endsWithSlash := path[|path| - 1] == '/';
    var newPathFragments: seq<string> := [];
    var pathFragments := Split(path, '/');
    for k := 0 to |pathFragments|
      invariant Resolve(pathFragments[k..], newPathFragments) == Resolve(Fragments(path0), [])
    {
      var frag := pathFragments[k];
      assert pathFragments[k..][1..] == pathFragments[k + 1..];
      if |frag| > 0 && frag != "." {
        if frag != ".." {
          newPathFragments := newPathFragments + [frag];
        } else if |newPathFragments| > 0 {
          newPathFragments := newPathFragments[0..|newPathFragments| - 1];
        } else {
          return Err(());
        }
      }
    }
    assert pathFragments[|pathFragments|..] == [];
    path := "/" + Join(newPathFragments, '/');
    assert path + "" == path;
    if |newPathFragments| > 0 {
      if trailingSlash > 0 || (trailingSlash == 0 && endsWithSlash) {
        path := path + "/";
      }
    }
    return Ok(path);
  }

  // ----- which names survive, and when it fails

  function Change(f: string): int {
    if IsName(f) then 1 else if f == ".." then -1 else 0
  }

  /** Names less `..`. */
  function Depth(frags: seq<string>): int {
    if frags == [] then 0 else Change(frags[0]) + Depth(frags[1..])
  }

  /** The lowest depth on the way, at most 0. */
  function Low(frags: seq<string>): int {
    if frags == [] then 0
    else
      var l := Change(frags[0]) + Low(frags[1..]);
      if l < 0 then l else 0
  }

  lemma {:induction false} LowIsLowest(frags: seq<string>)
    ensures forall n :: 0 <= n <= |frags| ==> Low(frags) <= Depth(frags[..n])
    ensures exists n :: 0 <= n <= |frags| && Low(frags) == Depth(frags[..n])
  {
    if frags == [] {
      assert Depth(frags[..0]) == 0;
    } else {
      LowIsLowest(frags[1..]);
      forall n | 0 <= n <= |frags| ensures Low(frags) <= Depth(frags[..n]) {
        if n > 0 { assert frags[..n][1..] == frags[1..][..n - 1]; }
      }
      if Low(frags) == 0 {
        assert Depth(frags[..0]) == 0;
      } else {
        var n :| 0 <= n <= |frags[1..]| && Low(frags[1..]) == Depth(frags[1..][..n]);
        assert frags[..n + 1][1..] == frags[1..][..n];
      }
    }
  }

  /** The names that no later `..` cancels: after them the depth never falls below where it was. */
  function Survivors(frags: seq<string>): seq<string> {
    if frags == [] then []
    else (if IsName(frags[0]) && Low(frags[1..]) == 0 then [frags[0]] else []) + Survivors(frags[1..])
  }

  lemma {:induction false} ResolveSurvivors(frags: seq<string>, stack: seq<string>)
    ensures Resolve(frags, stack) ==
            if |stack| + Low(frags) < 0 then None else Some(stack[..|stack| + Low(frags)] + Survivors(frags))
  {
    if frags == [] {
      NothingDropped(stack);
    } else {
      var rest := frags[1..];
      LowNotPositive(rest);
      NothingBefore(Survivors(rest));
      if IsName(frags[0]) {
        ResolveSurvivors(rest, stack + [frags[0]]);
        if |stack| + 1 + Low(rest) >= 0 {
          PushThenDrop(stack, frags[0], Low(rest), Survivors(rest));
        }
      } else if frags[0] != ".." {
        ResolveSurvivors(rest, stack);
      } else if stack != [] {
        ResolveSurvivors(rest, stack[..|stack| - 1]);
        if |stack| - 1 + Low(rest) >= 0 {
          DropTwice(stack, |stack| - 1, |stack| - 1 + Low(rest));
        }
      }
    }
  }

  lemma NothingDropped(stack: seq<string>)
    ensures stack[..|stack|] + [] == stack
  {
  }

  lemma NothingBefore(names: seq<string>)
    ensures [] + names == names
  {
  }

  lemma DropTwice(stack: seq<string>, n: nat, m: nat)
    requires m <= n <= |stack|
    ensures stack[..n][..m] == stack[..m]
  {
  }

  /** A pushed name stays exactly if nothing is dropped later. */
  lemma PushThenDrop(stack: seq<string>, name: string, low: int, more: seq<string>)
    requires low <= 0 <= |stack| + 1 + low
    ensures (stack + [name])[..|stack| + 1 + low] + more ==
            if low == 0 then stack[..|stack|] + ([name] + more) else stack[..|stack| + 1 + low] + more
  {
  }

  lemma LowNotPositive(frags: seq<string>)
    ensures Low(frags) <= 0
  {
  }

  /** A path is refused exactly if at some point it has more `..` than names. */
  lemma RefusedExactly(path: string, mode: int)
    ensures Sanitized(path, mode).Err? <==>
            path != "" && exists n :: 0 <= n <= |Fragments(path)| && Depth(Fragments(path)[..n]) < 0
  {
    LowIsLowest(Fragments(path));
    ResolveSurvivors(Fragments(path), []);
  }

  // ----- what comes out

  predicate AreNames(frags: seq<string>) {
    forall i :: 0 <= i < |frags| ==>
      frags[i] !in {"", ".", ".."} && forall j :: 0 <= j < |frags[i]| ==> frags[i][j] !in {'/', '\\'}
  }

  lemma {:induction false} SurvivorsAreNames(frags: seq<string>)
    requires AllFree(frags, '/') && AllFree(frags, '\\')
    ensures AreNames(Survivors(frags))
  {
    if frags == [] {
    } else {
      SurvivorsAreNames(frags[1..]);
    }
  }

  lemma {:induction false} SplitKeepsFree(s: string, sep: char, c: char)
    requires Free(s, c)
    ensures AllFree(Split(s, sep), c)
  {
    if s == "" {
    } else {
      SplitKeepsFree(s[1..], sep, c);
    }
  }

  /** The names a successful call ends up with. */
  function NamesOf(path: string): seq<string> {
    Survivors(Fragments(path))
  }

  /** The output is the surviving names, each after a slash, and one more slash if asked for:
      it has no empty, `.` or `..` fragment inside and no backslash. */
  lemma OutputForm(path: string, mode: int)
    requires Sanitized(path, mode).Ok?
    ensures AreNames(NamesOf(path))
    ensures var names := NamesOf(path);
            var keeps := mode == 0 && path != "" && path[|path| - 1] in {'/', '\\'};
            Sanitized(path, mode).value ==
            "/" + Join(names, '/') + if names != [] && (mode > 0 || keeps) then "/" else ""
  {
    SplitParts(Forward(path), '/');
    SplitKeepsFree(Forward(path), '/', '\\');
    SurvivorsAreNames(Fragments(path));
    ResolvedNames(path, mode);
  }

  lemma ResolvedNames(path: string, mode: int)
    requires Sanitized(path, mode).Ok?
    ensures Resolve(Fragments(path), []) == Some(NamesOf(path))
    ensures path == "" ==> NamesOf(path) == []
  {
    if path == "" {
      assert Fragments(path) == [""] && Survivors([""]) == [] by { assert [""][1..] == []; }
      assert Low([""]) == 0;
    }
    ResolveSurvivors(Fragments(path), []);
    LowNotPositive(Fragments(path));
    assert [][..0] + NamesOf(path) == NamesOf(path);
  }

  /** The fragments of an output are exactly its names, with nothing between them. */
  lemma OutputFragments(names: seq<string>, slash: bool)
    requires AreNames(names) && (slash ==> names != [])
    ensures Fragments(Rendered(names, slash)) ==
            [""] + (if names == [] then [""] else names) + if slash then [""] else []
    ensures EndsWithSlash(Rendered(names, slash)) <==> slash || names == []
    ensures Rendered(names, slash) != ""
  {
    var body := Join(names, '/');
    var tail := if slash then "/" else "";
    var r := Rendered(names, slash);
    JoinFree(names, '\\');
    assert Forward(r) == r;
    SplitAt("", '/', body + tail);
    assert r == "" + "/" + (body + tail);
    if names != [] {
      SplitJoin(names, '/');
      JoinLast(names);
    }
    BodyFragments(body, slash);
  }

  lemma BodyFragments(body: string, slash: bool)
    ensures Split(body + if slash then "/" else "", '/') == Split(body, '/') + if slash then [""] else []
  {
    if slash {
      SplitAt(body, '/', "");
      assert body + "/" == body + "/" + "";
    } else {
      assert body + "" == body;
    }
  }

  lemma {:induction false} JoinFree(names: seq<string>, c: char)
    requires AllFree(names, c) && c != '/'
    ensures Free(Join(names, '/'), c)
  {
    if |names| <= 1 {
    } else {
      JoinFree(names[1..], c);
    }
  }

  lemma {:induction false} JoinLast(names: seq<string>)
    requires names != [] && AreNames(names)
    ensures var s := Join(names, '/'); s != "" && s[|s| - 1] !in {'/', '\\'}
  {
    if |names| <= 1 {
    } else {
      JoinLast(names[1..]);
    }
  }

  /** Reading the names of an output again gives the same names. */
  lemma {:induction false} ResolveNames(names: seq<string>, stack: seq<string>)
    requires forall i :: 0 <= i < |names| ==> IsName(names[i])
    ensures Resolve(names, stack) == Some(stack + names)
  {
    if names == [] {
      assert stack + [] == stack;
    } else {
      ResolveNames(names[1..], stack + [names[0]]);
      assert stack + [names[0]] + names[1..] == stack + names;
    }
  }

  lemma {:induction false} ResolveAppend(a: seq<string>, b: seq<string>, stack: seq<string>)
    ensures Resolve(a + b, stack) ==
            match Resolve(a, stack) case None => None case Some(stack') => Resolve(b, stack')
  {
    if a == [] {
      assert a + b == b;
    } else {
      assert (a + b)[1..] == a[1..] + b;
      if IsName(a[0]) {
        ResolveAppend(a[1..], b, stack + [a[0]]);
      } else if a[0] != ".." {
        ResolveAppend(a[1..], b, stack);
      } else if stack != [] {
        ResolveAppend(a[1..], b, stack[..|stack| - 1]);
      }
    }
  }

  lemma OutputResolves(names: seq<string>, slash: bool)
    requires AreNames(names) && (slash ==> names != [])
    ensures Resolve(Fragments(Rendered(names, slash)), []) == Some(names)
  {
    OutputFragments(names, slash);
    var middle := if names == [] then [""] else names;
    var tail := if slash then [""] else [];
    ResolveNames(names, []);
    assert [] + names == names;
    assert Resolve([""], []) == Some([]) by { assert Resolve([], []) == Some([]); }
    assert Resolve(middle, []) == Some(names);
    assert Resolve(tail, names) == Some(names) by { assert [""][1..] == []; }
    ResolveAppend([""] + middle, tail, []);
    ResolveAppend([""], middle, []);
  }

  /** Sanitising what was sanitised: the same mode changes nothing, and any mode that decides
      about the trailing slash itself gives what it would have given the original path. */
  lemma SanitizedAgain(path: string, a: int, b: int)
    requires Sanitized(path, a).Ok?
    ensures Sanitized(Sanitized(path, a).value, a) == Sanitized(path, a)
    ensures b != 0 ==> Sanitized(Sanitized(path, a).value, b) == Sanitized(path, b)
  {
    var names := NamesOf(path);
    var slash := names != [] && (a > 0 || (a == 0 && EndsWithSlash(path)));
    OutputForm(path, a);
    OutputFragments(names, slash);
    OutputResolves(names, slash);
    ResolvedNames(path, a);
    if path != "" {
      OutputForm(path, b);
    }
  }

  /** A path in normal form: a slash, names between single slashes, perhaps a last slash. */
  predicate IsNormal(path: string) {
    var f := Split(path, '/');
    && Free(path, '\\') && |f| > 1 && f[0] == ""
    && (forall i :: 0 < i < |f| - 1 ==> f[i] !in {"", ".", ".."})
    && f[|f| - 1] !in {".", ".."}
  }

  /** Sanitising leaves exactly the paths in normal form as they are. */
  lemma UnchangedExactly(path: string)
    ensures Sanitized(path, 0) == Ok(path) <==> IsNormal(path)
  {
    if IsNormal(path) {
      NormalUnchanged(path);
    }
    if Sanitized(path, 0) == Ok(path) {
      var names := NamesOf(path);
      OutputForm(path, 0);
      OutputFragments(names, names != [] && EndsWithSlash(path));
      JoinFree(names, '\\');
      assert Free(path, '\\');
      assert Forward(path) == path;
    }
  }

  lemma NormalUnchanged(path: string)
    requires IsNormal(path)
    ensures Sanitized(path, 0) == Ok(path)
  {
    var f := Split(path, '/');
    var slash := f[|f| - 1] == "" && |f| > 2;
    var names := if f[|f| - 1] == "" then f[1..|f| - 1] else f[1..];
    SplitParts(path, '/');
    SplitKeepsFree(path, '/', '\\');
    JoinSplit(path, '/');
    assert path == Rendered(names, slash) by { NormalRendered(f, names, slash); }
    OutputFragments(names, slash);
    OutputResolves(names, slash);
  }

  lemma NormalRendered(f: seq<string>, names: seq<string>, slash: bool)
    requires |f| > 1 && f[0] == "" && slash == (f[|f| - 1] == "" && |f| > 2)
    requires names == if f[|f| - 1] == "" then f[1..|f| - 1] else f[1..]
    ensures Join(f, '/') == Rendered(names, slash)
  {
    assert Join(f, '/') == "/" + Join(f[1..], '/');
    if slash {
      assert f[1..] == names + [""];
      JoinSnoc(names, "");
    } else if f[|f| - 1] == "" {
      assert f[1..] == [""] && names == [];
    }
  }

  lemma {:induction false} JoinSnoc(parts: seq<string>, part: string)
    requires parts != []
    ensures Join(parts + [part], '/') == Join(parts, '/') + "/" + part
  {
    assert (parts + [part])[1..] == parts[1..] + [part];
    if |parts| <= 1 {
    } else {
      JoinSnoc(parts[1..], part);
    }
  }

  /** Sanitising the front of a path first makes no difference to the whole. */
  lemma SanitizedFront(p: string, a: int, q: string, mode: int)
    requires Sanitized(p, a).Ok?
    ensures Sanitized(p + "/" + q, mode) == Sanitized(Sanitized(p, a).value + "/" + q, mode)
  {
    var r := Sanitized(p, a).value;
    var names := NamesOf(p);
    OutputForm(p, a);
    OutputResolves(names, names != [] && (a > 0 || (a == 0 && EndsWithSlash(p))));
    FragmentsAt(p, q);
    FragmentsAt(r, q);
    ResolveAppend(Fragments(p), Fragments(q), []);
    ResolveAppend(Fragments(r), Fragments(q), []);
    ResolvedNames(p, a);
    SameEnd(p, r, q);
  }

  /** Backslashes are slashes, empty and `.` segments are dropped, and a `..` takes back the name
      before it. Together with `EndRules` and `UnchangedExactly` this says what every path becomes. */
  lemma SegmentRules(p: string, name: string, q: string, mode: int)
    requires name !in {"", ".", ".."} && forall i :: 0 <= i < |name| ==> name[i] !in {'/', '\\'}
    ensures Sanitized(p + "\\" + q, mode) == Sanitized(p + "/" + q, mode)
    ensures Sanitized(p + "/" + "" + "/" + q, mode) == Sanitized(p + "/" + q, mode)
    ensures Sanitized(p + "/" + "." + "/" + q, mode) == Sanitized(p + "/" + q, mode)
    ensures Sanitized(p + "/" + name + "/" + ".." + "/" + q, mode) == Sanitized(p + "/" + q, mode)
    ensures Sanitized(".." + "/" + q, mode).Err?
  {
    BackslashIsSlash(p, q, mode);
    assert Forward("") == "" && Forward(".") == "." && Forward("..") == "..";
    assert Resolve([], []) == Some([]) && [""][1..] == [] && ["."][1..] == [] && [".."][1..] == [];
    SplitFree(".", '/');
    SplitFree("..", '/');
    Unaffected(p, "", q, mode);
    Unaffected(p, ".", q, mode);
    TakenBack(name);
    assert p + "/" + (name + "/" + "..") + "/" + q == p + "/" + name + "/" + ".." + "/" + q;
    Unaffected(p, name + "/" + "..", q, mode);
    FragmentsAt("..", q);
  }

  /** The same at both ends, where a last segment `.` or `..` is not a trailing slash. */
  lemma EndRules(p: string, name: string, mode: int)
    requires name !in {"", ".", ".."} && forall i :: 0 <= i < |name| ==> name[i] !in {'/', '\\'}
    ensures Sanitized("/" + p, mode) == Sanitized(p, mode)
    ensures var noSlash := if mode == 0 then -1 else mode;
            && Sanitized(p + "/" + ".", mode) == Sanitized(p, noSlash)
            && Sanitized(p + "/" + name + "/" + "..", mode) == Sanitized(p, noSlash)
    ensures Sanitized("..", mode).Err?
  {
    assert Forward("") == "" && Forward(".") == "." && Forward("..") == "..";
    assert Resolve([], []) == Some([]) && [""][1..] == [] && ["."][1..] == [] && [".."][1..] == [];
    SplitFree(".", '/');
    SplitFree("..", '/');
    FragmentsAt("", p);
    assert "" + "/" + p == "/" + p;
    ResolveAppend([""], Fragments(p), []);
    UnaffectedEnd(p, ".", mode);
    TakenBack(name);
    assert p + "/" + (name + "/" + "..") == p + "/" + name + "/" + "..";
    UnaffectedEnd(p, name + "/" + "..", mode);
  }

  lemma UnaffectedEnd(p: string, m: string, mode: int)
    requires forall stack :: Resolve(Fragments(m), stack) == Some(stack)
    requires m != "" && m[|m| - 1] !in {'/', '\\'}
    ensures Sanitized(p + "/" + m, mode) == Sanitized(p, if mode == 0 then -1 else mode)
  {
    FragmentsAt(p, m);
    ResolveAppend(Fragments(p), Fragments(m), []);
    assert (p + "/" + m)[|p| + |m|] == m[|m| - 1];
    if p == "" {
      assert Fragments("") == [""] && [""][1..] == [];
      assert Resolve([], []) == Some([]);
      assert Rendered([], false) == "/";
    }
  }

  lemma BackslashIsSlash(p: string, q: string, mode: int)
    ensures Sanitized(p + "\\" + q, mode) == Sanitized(p + "/" + q, mode)
  {
    assert Forward(p + "\\" + q) == Forward(p + "/" + q);
    if q != "" {
      assert (p + "\\" + q)[|p| + |q|] == q[|q| - 1] == (p + "/" + q)[|p| + |q|];
    }
  }

  lemma TakenBack(name: string)
    requires IsName(name) && Free(name, '/') && Free(name, '\\')
    ensures forall stack :: Resolve(Fragments(name + "/" + ".."), stack) == Some(stack)
  {
    FragmentsAt(name, "..");
    assert Forward(name) == name && Forward("..") == "..";
    SplitFree(name, '/');
    SplitFree("..", '/');
    var f := Fragments(name + "/" + "..");
    assert f == [name, ".."] && f[1..] == [".."] && f[1..][1..] == [];
    forall stack ensures Resolve(f, stack) == Some(stack) {
      assert (stack + [name])[..|stack|] == stack;
      assert Resolve(f[1..], stack + [name]) == Resolve(f[1..][1..], stack);
    }
  }

  /** A middle part that leaves every stack as it was can be dropped. */
  lemma Unaffected(p: string, m: string, q: string, mode: int)
    requires forall stack :: Resolve(Fragments(m), stack) == Some(stack)
    ensures Sanitized(p + "/" + m + "/" + q, mode) == Sanitized(p + "/" + q, mode)
  {
    FragmentsAt(p + "/" + m, q);
    FragmentsAt(p, m);
    FragmentsAt(p, q);
    ResolveAppend(Fragments(p) + Fragments(m), Fragments(q), []);
    ResolveAppend(Fragments(p), Fragments(m), []);
    ResolveAppend(Fragments(p), Fragments(q), []);
    SameEnd(p + "/" + m, p, q);
  }

  lemma SameEnd(p: string, r: string, q: string)
    ensures EndsWithSlash(p + "/" + q) == EndsWithSlash(r + "/" + q)
  {
    if q == "" {
      assert p + "/" + q == p + "/" && r + "/" + q == r + "/";
    }
  }

  lemma FragmentsAt(p: string, q: string)
    ensures Fragments(p + "/" + q) == Fragments(p) + Fragments(q)
  {
    assert Forward(p + "/" + q) == Forward(p) + "/" + Forward(q);
    SplitAt(Forward(p), '/', Forward(q));
  }

  // ----- serving files below a base path

  /** The number of leading segments to strip: the slashes of the base path but for its last character. */
  function ToStrip(base: string): nat
    requires base != ""
  {
    Occurrences(base[..|base| - 1], '/')
  }

  /** Drops `n` leading segments, each a slash and what follows it up to the next one. */
  function StripSegments(path: string, n: nat): string
    decreases n
  {
    if n == 0 || path == "" then path
    else
      var k := NextSlash(path[1..]);
      if k == |path[1..]| then "" else StripSegments(path[k + 1..], n - 1)
  }

  function NextSlash(s: string): (k: nat)
    ensures k <= |s|
    ensures k < |s| ==> s[k] == '/'
    ensures Free(s[..k], '/')
  {
    if s == "" || s[0] == '/' then 0 else 1 + NextSlash(s[1..])
  }

  lemma {:induction false} NextSlashAt(s: string, k: nat)
    requires k < |s| && s[k] == '/' && Free(s[..k], '/')
    ensures NextSlash(s) == k
  {
    if k == 0 {
    } else {
      assert s[0] == s[..k][0];
      assert s[1..][..k - 1] == s[..k][1..];
      NextSlashAt(s[1..], k - 1);
    }
  }

  lemma {:induction false} StripNames(names: seq<string>, rest: string)
    requires names != [] && AllFree(names, '/')
    ensures StripSegments("/" + Join(names, '/') + "/" + rest, |names|) == "/" + rest
  {
    if |names| == 1 {
      StripOne(names[0], "/" + rest, 1);
      assert "/" + names[0] + "/" + rest == "/" + names[0] + ("/" + rest);
    } else {
      var more := Join(names[1..], '/');
      StripNames(names[1..], rest);
      RegroupMore(names[0], more, rest);
      StripOne(names[0], "/" + more + "/" + rest, |names|);
    }
  }

  lemma RegroupMore(name: string, more: string, rest: string)
    ensures "/" + (name + "/" + more) + "/" + rest == "/" + name + ("/" + more + "/" + rest)
  {
  }

  lemma StripOne(name: string, after: string, n: nat)
    requires Free(name, '/') && n > 0 && after != "" && after[0] == '/'
    ensures StripSegments("/" + name + after, n) == StripSegments(after, n - 1)
  {
    var path := "/" + name + after;
    assert path[1..] == name + after;
    assert path[1..][..|name|] == name;
    NextSlashAt(path[1..], |name|);
    assert path[|name| + 1..] == after;
  }

  /** The number of segments stripped from a request below a served directory is the number of
      names in its base path, and what is left is the path inside the directory. */
  lemma StrippedToInside(path: string, rest: string)
    requires Sanitized(path, 1).Ok?
    ensures var base := Sanitized(path, 1).value;
            && base != ""
            && ToStrip(base) == |NamesOf(path)|
            && StripSegments(base + rest, ToStrip(base)) == "/" + rest
  {
    var names := NamesOf(path);
    var base := Sanitized(path, 1).value;
    OutputForm(path, 1);
    if names == [] {
      assert base == "/" && base[..|base| - 1] == "";
    } else {
      var body := Join(names, '/');
      assert base == "/" + body + "/";
      assert base[..|base| - 1] == "/" + body && ("/" + body)[1..] == body;
      SplitJoin(names, '/');
      PartCount(body, '/');
      StripNames(names, rest);
    }
  }
}