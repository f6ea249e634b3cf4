/**
 * Node's POSIX `path` module as the server uses it: `join`, `normalize`, `resolve`,
 * `relative(...) === ""`, `dirname` and `basename`. A path string is split at "/" and
 * its segments are run through a stack, the way Node's `normalizeString` does: "" and
 * "." are dropped, ".." pops the last real segment, and a relative path keeps the ".."
 * segments that climb above its start. The result is rendered back to a string.
 */
module Paths {
  import Strings

  predicate IsAbsolute(p: string) {
    |p| > 0 && p[0] == '/'
  }

  /** The process working directory that `resolve` falls back on: always absolute. */
  type AbsolutePath = p: string | IsAbsolute(p) witness "/"

  predicate NoSlash(segs: seq<string>) {
    forall i :: 0 <= i < |segs| ==> '/' !in segs[i]
  }

  /** A segment that normalisation keeps as it is. */
  predicate Regular(seg: string) {
    seg != "" && seg != "." && seg != ".."
  }

  /** A single path component: a regular segment without a separator. */
  predicate Plain(x: string) {
    Regular(x) && '/' !in x
  }

  /** `p.split("/")`. */
  function Split(p: string): (r: seq<string>)
    ensures |r| >= 1 && NoSlash(r)
  {
    var r := Strings.SplitOn(p, "/");
    Strings.SplitOnPiecesFree(p, "/");
    assert "/"[0] == '/';
    r
  }

  /** One step of the segment stack. */
  function Push(stack: seq<string>, seg: string, allowAboveRoot: bool): seq<string> {
    if seg == "" || seg == "." then stack
    else if seg == ".." then
      if |stack| > 0 && stack[|stack| - 1] != ".." then stack[..|stack| - 1]
      else if allowAboveRoot then stack + [".."]
      else stack
    else stack + [seg]
  }

  /** Runs the segments through the stack from left to right. */
  function Fold(stack: seq<string>, segs: seq<string>, allowAboveRoot: bool): seq<string>
    decreases |segs|
  {
    if segs == [] then stack else Fold(Push(stack, segs[0], allowAboveRoot), segs[1..], allowAboveRoot)
  }

  /** What the stack can hold: no "" or "." segment, and ".." only as a leading run, only when allowed. */
  predicate Normal(segs: seq<string>, allowAboveRoot: bool) {
    forall i :: 0 <= i < |segs| ==>
      segs[i] != "" && segs[i] != "." &&
      (segs[i] == ".." ==> allowAboveRoot && forall j :: 0 <= j < i ==> segs[j] == "..")
  }

  /** The segments of a path after normalisation. */
  function Segments(p: string): seq<string> {
    Fold([], Split(p), !IsAbsolute(p))
  }

  /** Renders normalised segments as Node's `normalize` does. */
  function Render(absolute: bool, segs: seq<string>, trailing: bool): string {
    if segs == [] then (if absolute then "/" else if trailing then "./" else ".")
    else
      var body := Strings.Join(segs, "/");
      var lead := if absolute then "/" + body else body;
      if trailing then lead + "/" else lead
  }

  /** `path.normalize(p)`. */
  function Normalize(p: string): string {
    if p == "" then "." else Render(IsAbsolute(p), Segments(p), p[|p| - 1] == '/')
  }

  /** `path.join(a, b)`: empty arguments are skipped, the rest joined with "/" and normalised. */
  function Join(a: string, b: string): string {
    var joined := if a == "" then b else if b == "" then a else a + "/" + b;
    if joined == "" then "." else Normalize(joined)
  }

  /**
   * The string `path.resolve(...args)` builds before normalising: the arguments from the
   * last absolute one on (or the working directory first when none is absolute), each
   * followed by "/", empty arguments skipped.
   */
  function ResolvedString(cwd: AbsolutePath, args: seq<string>): string
    decreases |args|
  {
    if args == [] then cwd + "/"
    else
      var last := args[|args| - 1];
      if last == "" then ResolvedString(cwd, args[..|args| - 1])
      else if IsAbsolute(last) then last + "/"
      else ResolvedString(cwd, args[..|args| - 1]) + last + "/"
  }

  function ResolveSegments(cwd: AbsolutePath, args: seq<string>): seq<string> {
    Fold([], Split(ResolvedString(cwd, args)), false)
  }

  /** `path.resolve(...args)`: always absolute, never a trailing separator. */
  function Resolve(cwd: AbsolutePath, args: seq<string>): string {
    "/" + Strings.Join(ResolveSegments(cwd, args), "/")
  }

  /** `path.relative(from, to) === ""`: both resolve to the same location. */
  predicate RelativeIsEmpty(cwd: AbsolutePath, from: string, to: string) {
    Resolve(cwd, [from]) == Resolve(cwd, [to])
  }

  function DropLast(segs: seq<string>): seq<string> {
    if segs == [] then [] else segs[..|segs| - 1]
  }

  /** `path.dirname(p)`, on the normalised segments. */
  function Dirname(p: string): string {
    Render(IsAbsolute(p), DropLast(Segments(p)), false)
  }

  /** `path.basename(p)`, on the normalised segments. */
  function Basename(p: string): string {
    var segs := Segments(p);
    if segs == [] then "" else segs[|segs| - 1]
  }

  // ---------------------------------------------------------------------------
  // The segment stack

  lemma {:induction false} FoldAppend(stack: seq<string>, a: seq<string>, b: seq<string>, allow: bool)
    ensures Fold(stack, a + b, allow) == Fold(Fold(stack, a, allow), b, allow)
    decreases |a|
  {
    if a == [] {
      assert a + b == b;
    } else {
      assert (a + b)[0] == a[0];
      assert (a + b)[1..] == a[1..] + b;
      FoldAppend(Push(stack, a[0], allow), a[1..], b, allow);
    }
  }

  lemma FoldSnoc(stack: seq<string>, a: seq<string>, x: string, allow: bool)
    ensures Fold(stack, a + [x], allow) == Push(Fold(stack, a, allow), x, allow)
  {
    FoldAppend(stack, a, [x], allow);
  }

  /** One step of the stack keeps it normal and free of separators. */
  lemma PushNormal(stack: seq<string>, seg: string, allow: bool)
    requires Normal(stack, allow)
    ensures Normal(Push(stack, seg, allow), allow)
    ensures NoSlash(stack) && '/' !in seg ==> NoSlash(Push(stack, seg, allow))
  {
    if seg == ".." && !(|stack| > 0 && stack[|stack| - 1] != "..") && allow {
      assert forall j :: 0 <= j < |stack| ==> stack[j] == "..";
    }
  }

  /** The stack's result is always normal, and free of separators when its input is. */
  lemma {:induction false} FoldNormal(stack: seq<string>, segs: seq<string>, allow: bool)
    requires Normal(stack, allow)
    ensures Normal(Fold(stack, segs, allow), allow)
    ensures NoSlash(stack) && NoSlash(segs) ==> NoSlash(Fold(stack, segs, allow))
    decreases |segs|
  {
    if segs != [] {
      PushNormal(stack, segs[0], allow);
      FoldNormal(Push(stack, segs[0], allow), segs[1..], allow);
    }
  }

  lemma SegmentsNormal(p: string)
    ensures Normal(Segments(p), !IsAbsolute(p)) && NoSlash(Segments(p))
  {
    FoldNormal([], Split(p), !IsAbsolute(p));
  }

  /** Normal segments pass through the stack unchanged. */
  lemma {:induction false} FoldOfNormal(stack: seq<string>, segs: seq<string>, allow: bool)
    requires Normal(stack + segs, allow)
    ensures Fold(stack, segs, allow) == stack + segs
    decreases |segs|
  {
    if segs != [] {
      var s := stack + segs;
      assert s[|stack|] == segs[0];
      if segs[0] == ".." {
        assert forall j :: 0 <= j < |stack| ==> stack[j] == s[j] == "..";
      }
      assert Push(stack, segs[0], allow) == stack + [segs[0]];
      assert stack + [segs[0]] + segs[1..] == s;
      FoldOfNormal(stack + [segs[0]], segs[1..], allow);
    }
  }

  /** A stack step taken on a relative path first gives what taking it afterwards gives. */
  lemma FoldPushRelative(base: seq<string>, stack: seq<string>, seg: string, allow: bool)
    requires Normal(stack, true)
    ensures Fold(base, Push(stack, seg, true), allow) == Push(Fold(base, stack, allow), seg, allow)
  {
    if seg == ".." {
      if |stack| > 0 && stack[|stack| - 1] != ".." {
        var t := stack[|stack| - 1];
        var rest := stack[..|stack| - 1];
        assert stack == rest + [t];
        FoldSnoc(base, rest, t, allow);
      } else {
        FoldSnoc(base, stack, "..", allow);
      }
    } else if seg != "" && seg != "." {
      FoldSnoc(base, stack, seg, allow);
    }
  }

  /**
   * Normalising a relative path and then running it onto a base stack is the same as
   * running the raw segments onto that stack: the ".." segments a relative path keeps
   * are exactly the ones that later pop the base.
   */
  lemma {:induction false} FoldRelativeFirst(base: seq<string>, stack: seq<string>, segs: seq<string>, allow: bool)
    requires Normal(stack, true)
    ensures Fold(base, Fold(stack, segs, true), allow) == Fold(Fold(base, stack, allow), segs, allow)
    decreases |segs|
  {
    if segs != [] {
      PushNormal(stack, segs[0], true);
      FoldRelativeFirst(base, Push(stack, segs[0], true), segs[1..], allow);
      FoldPushRelative(base, stack, segs[0], allow);
    }
  }

  // ---------------------------------------------------------------------------
  // Rendering and reading back

  lemma SplitSlashAppend(a: string, b: string)
    ensures Split(a + "/" + b) == Split(a) + Split(b)
  {
    Strings.SplitOnAppend(a, "/", b);
  }

  lemma SplitPlain(x: string)
    requires '/' !in x
    ensures Split(x) == [x]
  {
    Strings.SplitOnFree(x, "/");
  }

  /** The segments of a rendered non-empty segment list are read back by `split`. */
  lemma SplitRendered(absolute: bool, segs: seq<string>, trailing: bool)
    requires segs != [] && NoSlash(segs)
    ensures Split(Render(absolute, segs, trailing)) ==
      (if absolute then [""] else []) + segs + (if trailing then [""] else [])
  {
    var body := Strings.Join(segs, "/");
    Strings.SplitJoin(segs, "/");
    var lead := if absolute then "/" + body else body;
    if absolute {
      SplitLeading(body);
    }
    if trailing {
      SplitTrailing(lead);
    }
  }

  /** A leading "/" splits off an empty first piece. */
  lemma SplitLeading(s: string)
    ensures Split("/" + s) == [""] + Split(s)
  {
    SplitSlashAppend("", s);
    assert "" + "/" + s == "/" + s;
    assert Split("") == [""];
  }

  /** A trailing "/" adds an empty last piece. */
  lemma SplitTrailing(s: string)
    ensures Split(s + "/") == Split(s) + [""]
  {
    SplitSlashAppend(s, "");
    assert s + "/" + "" == s + "/";
    assert Split("") == [""];
  }

  lemma JoinFirstChar(segs: seq<string>)
    requires |segs| > 0 && |segs[0]| > 0
    ensures |Strings.Join(segs, "/")| > 0 && Strings.Join(segs, "/")[0] == segs[0][0]
  {
  }

  lemma JoinLastChar(segs: seq<string>)
    requires |segs| > 0 && |segs[|segs| - 1]| > 0
    ensures |Strings.Join(segs, "/")| > 0
    ensures Strings.Join(segs, "/")[|Strings.Join(segs, "/")| - 1] == segs[|segs| - 1][|segs[|segs| - 1]| - 1]
  {
    if |segs| > 1 {
      Strings.JoinSnoc(segs[..|segs| - 1], segs[|segs| - 1], "/");
      assert segs[..|segs| - 1] + [segs[|segs| - 1]] == segs;
    }
  }

  /** Rendering normal segments and normalising again reads back the same form. */
  lemma RenderedSegments(absolute: bool, segs: seq<string>, trailing: bool)
    requires Normal(segs, !absolute) && NoSlash(segs)
    ensures IsAbsolute(Render(absolute, segs, trailing)) == absolute
    ensures Segments(Render(absolute, segs, trailing)) == segs
  {
    var r := Render(absolute, segs, trailing);
    if segs == [] {
      if absolute {
        SplitSlashAppend("", "");
        assert "" + "/" + "" == r;
        assert Split("") == [""];
      } else if trailing {
        SplitSlashAppend(".", "");
        SplitPlain(".");
        assert "." + "/" + "" == r;
        assert Split("") == [""];
      } else {
        SplitPlain(".");
      }
    } else {
      SplitRendered(absolute, segs, trailing);
      if !absolute {
        JoinFirstChar(segs);
        assert segs[0][0] in segs[0];
      }
      var pre: seq<string> := if absolute then [""] else [];
      var post: seq<string> := if trailing then [""] else [];
      FoldAppend([], pre, segs + post, !absolute);
      assert pre + segs + post == pre + (segs + post);
      assert Fold([], pre, !absolute) == [];
      FoldAppend([], segs, post, !absolute);
      FoldOfNormal([], segs, !absolute);
      assert [] + segs == segs;
    }
  }

  /** A rendered non-empty segment list ends in "/" exactly when a trailing separator was asked for. */
  lemma RenderLastChar(absolute: bool, segs: seq<string>, trailing: bool)
    requires Normal(segs, !absolute) && NoSlash(segs)
    ensures var r := Render(absolute, segs, trailing);
            r != "" && (segs != [] ==> (r[|r| - 1] == '/' <==> trailing))
  {
    if segs != [] && !trailing {
      var last := segs[|segs| - 1];
      assert last in segs;
      JoinLastChar(segs);
      assert last[|last| - 1] in last;
    }
  }

  /** Normalising is idempotent. */
  lemma NormalizeIdempotent(p: string)
    ensures Normalize(Normalize(p)) == Normalize(p)
  {
    if p == "" {
      SplitPlain(".");
    } else {
      var abs, segs, t := IsAbsolute(p), Segments(p), p[|p| - 1] == '/';
      SegmentsNormal(p);
      RenderedSegments(abs, segs, t);
      RenderLastChar(abs, segs, t);
    }
  }

  /** `path.join` always returns a normalised path. */
  lemma JoinNormal(a: string, b: string)
    ensures Normalize(Join(a, b)) == Join(a, b)
  {
    var joined := if a == "" then b else if b == "" then a else a + "/" + b;
    if joined == "" {
      NormalizeIdempotent("");
    } else {
      NormalizeIdempotent(joined);
    }
  }

  /** Renders a list one segment longer by appending "/" and the segment. */
  lemma RenderSnoc(absolute: bool, segs: seq<string>, x: string)
    requires segs != []
    ensures Render(absolute, segs + [x], false) == Render(absolute, segs, false) + "/" + x
  {
    Strings.JoinSnoc(segs, x, "/");
  }

  // ---------------------------------------------------------------------------
  // join, resolve, dirname and basename of one more component

  /** `join(a, x)` for a single component `x` appends it to the normalised `a`. */
  lemma JoinPlain(a: string, x: string)
    requires Plain(x)
    ensures Join(a, x) == Render(IsAbsolute(a), Segments(a) + [x], false)
    ensures IsAbsolute(Join(a, x)) == IsAbsolute(a)
    ensures Segments(Join(a, x)) == Segments(a) + [x]
  {
    SplitPlain(x);
    if a == "" {
      assert Split("") == [""];
      assert x[0] in x;
    } else {
      var joined := a + "/" + x;
      SplitSlashAppend(a, x);
      FoldSnoc([], Split(a), x, !IsAbsolute(a));
      assert joined[|joined| - 1] == x[|x| - 1];
      assert x[|x| - 1] in x;
    }
    SegmentsNormal(a);
    var segs := Segments(a) + [x];
    assert Normal(segs, !IsAbsolute(a)) && NoSlash(segs);
    RenderedSegments(IsAbsolute(a), segs, false);
  }

  /** Joining "../x" onto a path runs ".." and then `x` through the stack of its segments. */
  lemma JoinClimbPlain(a: string, x: string)
    requires a != "" && Plain(x)
    ensures Join(a, "../" + x) == Render(IsAbsolute(a), Fold(Segments(a), ["..", x], !IsAbsolute(a)), false)
  {
    var rest := "../" + x;
    var allow := !IsAbsolute(a);
    assert rest == ".." + "/" + x;
    SplitSlashAppend("..", x);
    SplitPlain("..");
    SplitPlain(x);
    assert Split(rest) == ["..", x];
    SplitSlashAppend(a, rest);
    var joined := a + "/" + rest;
    assert Split(joined) == Split(a) + ["..", x];
    assert joined[0] == a[0];
    assert IsAbsolute(joined) == IsAbsolute(a);
    FoldAppend([], Split(a), ["..", x], allow);
    assert Segments(joined) == Fold(Segments(a), ["..", x], allow);
    assert joined[|joined| - 1] == x[|x| - 1];
    assert x[|x| - 1] in x;
    assert Join(a, rest) == Normalize(joined);
  }
  /**
   * From a child `d` of a path in normal form, "../x" leads to the sibling `x`:
   * `join(join(b, d), "../x")` is `b + "/x"`.
   */
  lemma ClimbToSibling(b: string, d: string, x: string)
    requires Plain(d) && Plain(x)
    requires Segments(b) != [] && b == Render(IsAbsolute(b), Segments(b), false)
    ensures Join(Join(b, d), "../" + x) == b + "/" + x
  {
    var u := Join(b, d);
    var segs := Segments(b);
    var allow := !IsAbsolute(b);
    JoinPlain(b, d);
    RenderSnoc(IsAbsolute(b), segs, d);
    assert u == b + "/" + d;
    JoinClimbPlain(u, x);
    assert ["..", x][1..] == [x];
    assert [x][1..] == [];
    assert Push(segs + [d], "..", allow) == segs;
    assert Fold(Segments(u), ["..", x], allow) == Fold(segs, [x], allow) == segs + [x];
    RenderSnoc(IsAbsolute(b), segs, x);
  }



  /** `join(a, "..")` drops the last segment when it is a real one. */
  lemma JoinParent(a: string)
    requires Segments(a) != [] && Segments(a)[|Segments(a)| - 1] != ".."
    ensures Join(a, "..") == Dirname(a)
  {
    SplitSlashAppend(a, "..");
    SplitPlain("..");
    FoldSnoc([], Split(a), "..", !IsAbsolute(a));
  }

  /** `dirname` and `basename` of `join(d, x)` give back `d` (normalised) and `x`. */
  lemma DirnameBasenameOfJoin(d: string, x: string)
    requires Plain(x)
    ensures Dirname(Join(d, x)) == Render(IsAbsolute(d), Segments(d), false)
    ensures Basename(Join(d, x)) == x
  {
    JoinPlain(d, x);
    assert DropLast(Segments(d) + [x]) == Segments(d);
  }

  /** A directory name is already in normal form. */
  lemma DirnameNormal(p: string)
    ensures Render(IsAbsolute(Dirname(p)), Segments(Dirname(p)), false) == Dirname(p)
  {
    SegmentsNormal(p);
    var segs := DropLast(Segments(p));
    RenderedSegments(IsAbsolute(p), segs, false);
  }

  lemma BasenameNoSlash(p: string)
    ensures '/' !in Basename(p)
  {
    SegmentsNormal(p);
  }

  /** `resolve(p)` for one argument: the working directory's segments first unless `p` is absolute. */
  lemma ResolveSingle(cwd: AbsolutePath, p: string)
    ensures ResolveSegments(cwd, [p]) ==
      if IsAbsolute(p) then Segments(p) else Fold(Segments(cwd), Split(p), false)
  {
    assert [p][..0] == [];
    var cs := Split(cwd);
    assert Split("") == [""];
    if p == "" {
      SplitSlashAppend(cwd, "");
      assert cwd + "/" + "" == cwd + "/";
      FoldSnoc([], cs, "", false);
    } else if IsAbsolute(p) {
      SplitSlashAppend(p, "");
      assert p + "/" + "" == p + "/";
      FoldSnoc([], Split(p), "", false);
    } else {
      assert ResolvedString(cwd, [p]) == cwd + "/" + p + "/" + "";
      SplitSlashAppend(cwd + "/" + p, "");
      SplitSlashAppend(cwd, p);
      FoldAppend([], cs, Split(p) + [""], false);
      assert cs + Split(p) + [""] == cs + (Split(p) + [""]);
      FoldSnoc(Fold([], cs, false), Split(p), "", false);
    }
  }

  /** The relative half of ResolveJoinPlain: the working directory's stack absorbs the ".." run. */
  lemma ResolveJoinPlainRelative(cwd: AbsolutePath, d: string, x: string)
    requires Plain(x) && !IsAbsolute(d)
    ensures Fold(Segments(cwd), Split(Join(d, x)), false) == Fold(Segments(cwd), Split(d), false) + [x]
  {
    JoinPlain(d, x);
    SegmentsNormal(d);
    var segs := Segments(d) + [x];
    assert NoSlash(segs);
    SplitRendered(false, segs, false);
    assert Split(Join(d, x)) == segs;
    FoldSnoc(Segments(cwd), Segments(d), x, false);
    FoldRelativeFirst(Segments(cwd), [], Split(d), false);
    assert Fold(Segments(cwd), [], false) == Segments(cwd);
  }

  /** `resolve(join(d, x))` is `resolve(d)` with one more segment `x`. */
  lemma ResolveJoinPlain(cwd: AbsolutePath, d: string, x: string)
    requires Plain(x)
    ensures ResolveSegments(cwd, [Join(d, x)]) == ResolveSegments(cwd, [d]) + [x]
  {
    JoinPlain(d, x);
    ResolveSingle(cwd, Join(d, x));
    ResolveSingle(cwd, d);
    if !IsAbsolute(d) {
      ResolveJoinPlainRelative(cwd, d, x);
    }
  }

  /** A rendered absolute segment list extended by one segment extends the string. */
  lemma ResolveSnoc(segs: seq<string>, x: string)
    ensures "/" + Strings.Join(segs + [x], "/") ==
      (if segs == [] then "/" else "/" + Strings.Join(segs, "/") + "/") + x
  {
    if segs != [] {
      Strings.JoinSnoc(segs, x, "/");
    }
  }
}
