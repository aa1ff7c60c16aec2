/**
 * POSIX paths as Node's `path.posix` treats them. A resolved path is the
 * list of names from the root down (`[]` is "/"); string paths are cut into
 * pieces at '/', and `resolve`, `normalize`, `relative`, `join` and
 * `isAbsolute` are defined over those pieces. The process working directory,
 * which `resolve` falls back on for relative paths, is a parameter `cwd`.
 */
module PosixPath {
  import opened Strings
  import Seqs

  /** A directory entry name: non-empty, without '/', and neither "." nor "..". */
  predicate IsName(s: string) {
    s != "" && '/' !in s && s != "." && s != ".."
  }

  /** A resolved absolute path: the names from the root down. */
  type Path = seq<string>

  predicate IsCanonical(p: Path) {
    forall k :: 0 <= k < |p| ==> IsName(p[k])
  }

  /** A piece of a path string that `normalize` does not skip: a name or "..". */
  predicate IsStep(s: string) {
    s != "" && s != "." && '/' !in s
  }

  predicate AllSteps(ps: seq<string>) {
    forall k :: 0 <= k < |ps| ==> IsStep(ps[k])
  }

  /** `path.isAbsolute`. */
  predicate IsAbsolute(p: string) {
    |p| > 0 && p[0] == '/'
  }

  predicate Meaningful(piece: string) {
    piece != "" && piece != "."
  }

  /** The pieces of `p` between slashes, without the empty and "." pieces. */
  function Pieces(p: string): (r: seq<string>)
    ensures AllSteps(r)
  {
    var r := Seqs.Filter(Split(p, '/'), Meaningful);
    forall k | 0 <= k < |r| ensures IsStep(r[k]) {
      Seqs.FilterMembers(Split(p, '/'), Meaningful, r[k]);
    }
    r
  }

  /** One step from directory `at`: ".." goes to the parent (the root is its own parent), a name goes down. */
  function Step(at: Path, piece: string): Path {
    if piece == ".." then (if at == [] then [] else at[..|at| - 1]) else at + [piece]
  }

  /** Follows `pieces` from `at`, as `resolve` does after joining its arguments. */
  function Walk(at: Path, pieces: seq<string>): (r: Path)
    requires IsCanonical(at) && AllSteps(pieces)
    ensures IsCanonical(r)
    decreases |pieces|
  {
    if pieces == [] then at else Walk(Step(at, pieces[0]), pieces[1..])
  }

  /** `path.resolve(p)`. */
  function ResolveFrom(cwd: Path, p: string): (r: Path)
    requires IsCanonical(cwd)
    ensures IsCanonical(r)
  {
    Walk(if IsAbsolute(p) then [] else cwd, Pieces(p))
  }

  /** `path.resolve(dir, p)`. */
  function Resolve(cwd: Path, dir: string, p: string): (r: Path)
    requires IsCanonical(cwd)
    ensures IsCanonical(r)
  {
    if IsAbsolute(p) then ResolveFrom(cwd, p) else Walk(ResolveFrom(cwd, dir), Pieces(p))
  }

  /** The string that `path.resolve` returns for a resolved path. */
  function Render(p: Path): string {
    "/" + Join(p, '/')
  }

  // ---------------------------------------------------------------- normalize and join

  /** One step of `normalize`: ".." cancels a preceding name; otherwise it is dropped at the root or kept in a relative path. */
  function NormStep(acc: seq<string>, piece: string, absolute: bool): seq<string> {
    if piece == ".." then
      if acc != [] && acc[|acc| - 1] != ".." then acc[..|acc| - 1]
      else if absolute then acc
      else acc + [".."]
    else acc + [piece]
  }

  function NormWalk(acc: seq<string>, pieces: seq<string>, absolute: bool): (r: seq<string>)
    requires AllSteps(acc) && AllSteps(pieces)
    ensures AllSteps(r)
    decreases |pieces|
  {
    if pieces == [] then acc else NormWalk(NormStep(acc, pieces[0], absolute), pieces[1..], absolute)
  }

  /** `path.normalize`: folds ".." and ".", collapses slashes, keeps a trailing slash. */
  function Normalize(p: string): string {
    if p == "" then "."
    else
      var absolute := IsAbsolute(p);
      var trailing := p[|p| - 1] == '/';
      var body := Join(NormWalk([], Pieces(p), absolute), '/');
      if body == "" then (if absolute then "/" else if trailing then "./" else ".")
      else (if absolute then "/" else "") + body + (if trailing then "/" else "")
  }

  /** `path.join(a, b)`: the non-empty arguments joined with '/', then normalized. */
  function JoinPaths(a: string, b: string): string {
    var joined := if a == "" then b else if b == "" then a else a + "/" + b;
    if joined == "" then "." else Normalize(joined)
  }

  // ---------------------------------------------------------------- relative

  /** The number of leading names two resolved paths share. */
  function CommonLength(a: Path, b: Path): (n: nat)
    ensures n <= |a| && n <= |b| && a[..n] == b[..n]
    ensures n < |a| && n < |b| ==> a[n] != b[n]
    decreases |a|
  {
    if a == [] || b == [] || a[0] != b[0] then 0
    else
      var n := CommonLength(a[1..], b[1..]);
      assert a[..n + 1] == [a[0]] + a[1..][..n];
      assert b[..n + 1] == [b[0]] + b[1..][..n];
      n + 1
  }

  function Ups(n: nat): (r: seq<string>)
    ensures |r| == n && forall k :: 0 <= k < n ==> r[k] == ".."
  {
    seq(n, _ => "..")
  }

  /** The pieces of `path.relative(from, to)` for resolved paths. */
  function RelativePieces(from: Path, to: Path): seq<string> {
    var n := CommonLength(from, to);
    Ups(|from| - n) + to[n..]
  }

  /** `path.relative(from, to)`: climb from `from` to the common ancestor, then go down to `to`. */
  function Relative(cwd: Path, from: string, to: string): string
    requires IsCanonical(cwd)
  {
    Join(RelativePieces(ResolveFrom(cwd, from), ResolveFrom(cwd, to)), '/')
  }

  /** `root` is a proper ancestor of `p`. */
  predicate StrictlyBelow(root: Path, p: Path) {
    |root| < |p| && p[..|root|] == root
  }

  // ---------------------------------------------------------------- lemmas: pieces

  lemma {:induction false} SplitAround(x: string, y: string, sep: char)
    ensures Split(x + [sep] + y, sep) == Split(x, sep) + Split(y, sep)
    decreases |x|
  {
    if x == [] {
      assert x + [sep] + y == [sep] + y;
      assert ([sep] + y)[1..] == y;
    } else {
      assert (x + [sep] + y)[0] == x[0];
      assert (x + [sep] + y)[1..] == x[1..] + [sep] + y;
      SplitAround(x[1..], y, sep);
    }
  }

  lemma PiecesAround(x: string, y: string)
    ensures Pieces(x + "/" + y) == Pieces(x) + Pieces(y)
  {
    SplitAround(x, y, '/');
    Seqs.FilterConcat(Split(x, '/'), Split(y, '/'), Meaningful);
  }

  /** Cutting joined steps at '/' gives the steps back. */
  lemma PiecesOfJoin(ps: seq<string>)
    requires AllSteps(ps)
    ensures Pieces(Join(ps, '/')) == ps
  {
    if ps == [] {
      assert Split("", '/') == [""];
    } else {
      SplitJoin(ps, '/');
      Seqs.FilterAllKept(ps, Meaningful);
    }
  }

  lemma PiecesOfRender(p: Path)
    requires IsCanonical(p)
    ensures Pieces(Render(p)) == p
  {
    assert Render(p) == "" + "/" + Join(p, '/');
    PiecesAround("", Join(p, '/'));
    PiecesOfJoin(p);
    assert Split("", '/') == [""];
  }

  // ---------------------------------------------------------------- lemmas: walking

  lemma {:induction false} WalkConcat(at: Path, a: seq<string>, b: seq<string>)
    requires IsCanonical(at) && AllSteps(a) && AllSteps(b)
    ensures AllSteps(a + b)
    ensures Walk(at, a + b) == Walk(Walk(at, a), b)
    decreases |a|
  {
    assert AllSteps(a + b) by {
      forall k | 0 <= k < |a + b| ensures IsStep((a + b)[k]) {
        if k < |a| { assert (a + b)[k] == a[k]; } else { assert (a + b)[k] == b[k - |a|]; }
      }
    }
    if a == [] {
      assert a + b == b;
    } else {
      assert (a + b)[0] == a[0];
      assert (a + b)[1..] == a[1..] + b;
      WalkConcat(Step(at, a[0]), a[1..], b);
    }
  }

  /** Walking down through names only appends them. */
  lemma {:induction false} WalkNames(at: Path, names: Path)
    requires IsCanonical(at) && IsCanonical(names)
    ensures Walk(at, names) == at + names
    decreases |names|
  {
    if names != [] {
      WalkNames(at + [names[0]], names[1..]);
      assert at + [names[0]] + names[1..] == at + names;
    }
  }

  /** A rendered path resolves back to itself, wherever the process runs. */
  lemma ResolveRender(cwd: Path, p: Path)
    requires IsCanonical(cwd) && IsCanonical(p)
    ensures ResolveFrom(cwd, Render(p)) == p
  {
    PiecesOfRender(p);
    WalkNames([], p);
  }

  /** In an absolute path `normalize` folds ".." exactly as resolution does. */
  lemma {:induction false} NormWalkAbsolute(acc: Path, pieces: seq<string>)
    requires IsCanonical(acc) && AllSteps(pieces)
    ensures AllSteps(acc)
    ensures NormWalk(acc, pieces, true) == Walk(acc, pieces)
    decreases |pieces|
  {
    if pieces != [] {
      NormWalkAbsolute(Step(acc, pieces[0]), pieces[1..]);
    }
  }

  /** Resolving the folded pieces of a path from any directory lands where the raw pieces do. */
  lemma {:induction false} NormWalkRelative(at: Path, acc: seq<string>, pieces: seq<string>)
    requires IsCanonical(at) && AllSteps(acc) && AllSteps(pieces)
    ensures Walk(at, NormWalk(acc, pieces, false)) == Walk(Walk(at, acc), pieces)
    decreases |pieces|
  {
    if pieces != [] {
      var piece := pieces[0];
      var acc' := NormStep(acc, piece, false);
      assert Walk(at, acc') == Step(Walk(at, acc), piece) by {
        if piece == ".." && acc != [] && acc[|acc| - 1] != ".." {
          var init := acc[..|acc| - 1];
          assert acc == init + [acc[|acc| - 1]];
          WalkConcat(at, init, [acc[|acc| - 1]]);
        } else {
          WalkConcat(at, acc, [piece]);
        }
      }
      NormWalkRelative(at, acc', pieces[1..]);
    }
  }

  lemma PiecesWithTrailing(body: string, trailing: bool)
    ensures Pieces(body + (if trailing then "/" else "")) == Pieces(body)
  {
    if trailing {
      PiecesAround(body, "");
      assert Pieces("") == [] by { assert Split("", '/') == [""]; }
      assert body + "/" + "" == body + "/";
    } else {
      assert body + "" == body;
    }
  }

  lemma PiecesOfNormalizeForms()
    ensures Pieces(".") == [] && Pieces("./") == [] && Pieces("/") == [] && Pieces("") == []
  {
    assert Split("", '/') == [""];
    assert "."[1..] == "" && "/"[1..] == "" && "./"[1..] == "/";
    SplitNoSep(".", '/');
    SplitAround("", "", '/');
    SplitAround(".", "", '/');
    assert "" + "/" + "" == "/" && "." + "/" + "" == "./";
  }

  /** The pieces of "/" + body + an optional trailing slash are the steps the body joins. */
  lemma PiecesOfRooted(folded: seq<string>, trailing: bool)
    requires AllSteps(folded)
    ensures Pieces("/" + Join(folded, '/') + (if trailing then "/" else "")) == folded
  {
    var body := Join(folded, '/');
    var tail := body + (if trailing then "/" else "");
    assert "/" + body + (if trailing then "/" else "") == "" + "/" + tail;
    PiecesOfJoin(folded);
    PiecesAround("", tail);
    PiecesWithTrailing(body, trailing);
    PiecesOfNormalizeForms();
  }

  lemma ResolveNormalizeAbsolute(cwd: Path, p: string)
    requires IsCanonical(cwd) && IsAbsolute(p)
    ensures ResolveFrom(cwd, Normalize(p)) == ResolveFrom(cwd, p)
  {
    var trailing := p[|p| - 1] == '/';
    var folded := NormWalk([], Pieces(p), true);
    NormWalkAbsolute([], Pieces(p));
    if Join(folded, '/') != "" {
      PiecesOfRooted(folded, trailing);
      WalkNames([], folded);
    } else {
      PiecesOfJoin(folded);
      PiecesOfNormalizeForms();
    }
  }

  lemma ResolveNormalizeRelative(cwd: Path, p: string)
    requires IsCanonical(cwd) && p != "" && !IsAbsolute(p)
    ensures ResolveFrom(cwd, Normalize(p)) == ResolveFrom(cwd, p)
  {
    PiecesOfNormalizeForms();
    var trailing := p[|p| - 1] == '/';
    var folded := NormWalk([], Pieces(p), false);
    var body := Join(folded, '/');
    PiecesOfJoin(folded);
    NormWalkRelative(cwd, [], Pieces(p));
    if body != "" {
      var q := body + (if trailing then "/" else "");
      PiecesWithTrailing(body, trailing);
      assert folded != [];
      PiecesStartNoSlash(folded);
      assert q[0] == body[0] == folded[0][0];
      assert folded[0][0] in folded[0];
      assert Normalize(p) == q;
    }
  }

  /** `path.normalize` never changes where a path resolves to. */
  lemma ResolveNormalize(cwd: Path, p: string)
    requires IsCanonical(cwd)
    ensures ResolveFrom(cwd, Normalize(p)) == ResolveFrom(cwd, p)
  {
    if p == "" {
      PiecesOfNormalizeForms();
    } else if IsAbsolute(p) {
      ResolveNormalizeAbsolute(cwd, p);
    } else {
      ResolveNormalizeRelative(cwd, p);
    }
  }

  lemma PiecesStartNoSlash(ps: seq<string>)
    requires AllSteps(ps) && ps != []
    ensures Join(ps, '/') != [] && Join(ps, '/')[0] == ps[0][0]
  {
    assert ps[0] != "";
    if |ps| > 1 {
      assert Join(ps, '/') == ps[0] + ['/'] + Join(ps[1..], '/');
    }
  }

  /** `path.join(root, name)` names the child `name` of `root`. */
  lemma JoinChild(cwd: Path, root: string, name: string)
    requires IsCanonical(cwd) && IsName(name)
    ensures ResolveFrom(cwd, JoinPaths(root, name)) == ResolveFrom(cwd, root) + [name]
  {
    PiecesOfJoin([name]);
    assert Pieces(name) == [name];
    var joined := if root == "" then name else root + "/" + name;
    ResolveNormalize(cwd, joined);
    if root == "" {
      assert Pieces(root) == [] by { assert Split("", '/') == [""]; }
      assert !IsAbsolute(name) by { assert name[0] != '/'; }
      assert Walk(cwd, [name]) == Walk(cwd + [name], []);
    } else {
      PiecesAround(root, name);
      assert IsAbsolute(joined) == IsAbsolute(root);
      var start := if IsAbsolute(root) then [] else cwd;
      WalkConcat(start, Pieces(root), [name]);
      assert Walk(ResolveFrom(cwd, root), [name]) == Walk(ResolveFrom(cwd, root) + [name], []);
    }
  }

  // ---------------------------------------------------------------- lemmas: relative

  lemma JoinStartsWithFirst(ps: seq<string>)
    requires ps != []
    ensures StartsWith(Join(ps, '/'), ps[0])
    ensures |ps| > 1 ==> Join(ps, '/') == ps[0] + "/" + Join(ps[1..], '/')
  {
    if |ps| > 1 {
      assert Join(ps, '/') == ps[0] + ['/'] + Join(ps[1..], '/');
      assert (ps[0] + ['/'] + Join(ps[1..], '/'))[..|ps[0]|] == ps[0];
    }
  }

  /**
   * What `path.relative(root, p)` says about where `p` lies: the check that
   * the relative path is non-empty, not absolute and does not start with ".."
   * passes exactly when `p` lies strictly below `root` and the first name
   * below `root` does not itself start with "..".
   */
  lemma RelativeInside(root: Path, p: Path)
    requires IsCanonical(root) && IsCanonical(p)
    ensures var rel := Join(RelativePieces(root, p), '/');
      (rel != "" && !StartsWith(rel, "..") && !IsAbsolute(rel))
      <==> (StrictlyBelow(root, p) && !StartsWith(p[|root|], ".."))
  {
    var n := CommonLength(root, p);
    var ps := RelativePieces(root, p);
    var rel := Join(ps, '/');
    if n < |root| {
      assert ps[0] == "..";
      JoinStartsWithFirst(ps);
      assert rel[..2] == "..";
    } else if n == |p| {
      assert ps == [];
    } else {
      assert ps == p[n..] && ps[0] == p[n];
      JoinStartsWithFirst(ps);
      var name := p[n];
      assert IsName(name);
      assert rel[0] == name[0];
      assert name[0] != '/' by { assert name[0] in name; }
      if |name| >= 2 {
        assert rel[..2] == name[..2];
      } else {
        assert name == [name[0]];
      }
      assert StrictlyBelow(root, p);
    }
  }

  /** An ancestor shares all of its names with its descendant. */
  lemma {:induction false} CommonLengthBelow(root: Path, p: Path)
    requires StrictlyBelow(root, p)
    ensures CommonLength(root, p) == |root|
    decreases |root|
  {
    if root != [] {
      StrictlyBelowCons(root, p);
      CommonLengthBelow(root[1..], p[1..]);
    }
  }

  /** Below an ancestor, the relative pieces are exactly the names that follow it. */
  lemma RelativeBelowPieces(root: Path, p: Path)
    requires IsCanonical(p) && StrictlyBelow(root, p)
    ensures var ps := RelativePieces(root, p);
      ps == p[|root|..] && ps != [] && IsCanonical(ps) && root + ps == p
  {
    CommonLengthBelow(root, p);
    assert Ups(0) == [];
    var ps := p[|root|..];
    assert p == p[..|root|] + ps;
    forall k | 0 <= k < |ps| ensures IsName(ps[k]) { assert ps[k] == p[|root| + k]; }
  }

  /** Names joined with '/' never form an absolute path. */
  lemma JoinedNamesRelative(ps: Path)
    requires ps != [] && IsCanonical(ps)
    ensures !IsAbsolute(Join(ps, '/'))
  {
    JoinStartsWithFirst(ps);
    assert IsName(ps[0]);
    assert Join(ps, '/')[0] == ps[0][0];
    assert ps[0][0] in ps[0];
  }

  /** Resolving the relative path of a descendant from its ancestor gives the descendant back. */
  lemma ResolveRelativeBelow(cwd: Path, rootStr: string, p: Path)
    requires IsCanonical(cwd) && IsCanonical(p)
    requires StrictlyBelow(ResolveFrom(cwd, rootStr), p)
    ensures var rel := Join(RelativePieces(ResolveFrom(cwd, rootStr), p), '/');
      !IsAbsolute(rel) && Resolve(cwd, rootStr, rel) == p
  {
    var root := ResolveFrom(cwd, rootStr);
    var ps := RelativePieces(root, p);
    RelativeBelowPieces(root, p);
    JoinedNamesRelative(ps);
    PiecesOfJoin(ps);
    WalkNames(root, ps);
  }

  /**
   * The string check `resolved.startsWith(dir + "/")` on rendered paths holds
   * exactly when `dir` is a proper ancestor of `resolved` other than the root
   * (for the root, `dir + "/"` is "//", which no rendered path starts with).
   */
  lemma RenderPrefix(dir: Path, p: Path)
    requires IsCanonical(dir) && IsCanonical(p)
    ensures StartsWith(Render(p), Render(dir) + "/") <==> (dir != [] && StrictlyBelow(dir, p))
  {
    if dir == [] {
      assert Render(dir) + "/" == "//";
      if p != [] {
        PiecesStartNoSlash(p);
        assert Render(p)[1] == p[0][0];
        assert p[0][0] in p[0];
      }
    } else {
      assert Render(dir) + "/" == "/" + (Join(dir, '/') + "/");
      StartsWithSame("/", Join(p, '/'), Join(dir, '/') + "/");
      JoinPrefix(dir, p);
    }
  }

  lemma StartsWithSame(x: string, s: string, t: string)
    ensures StartsWith(x + s, x + t) <==> StartsWith(s, t)
  {
    if StartsWith(s, t) {
      assert (x + s)[..|x + t|] == x + s[..|t|];
    }
    if StartsWith(x + s, x + t) {
      assert s[..|t|] == (x + s)[|x|..|x| + |t|] == (x + t)[|x|..];
    }
  }

  /** The text before the first '/'. */
  function UpToSlash(s: string): string
    decreases |s|
  {
    if s == [] || s[0] == '/' then [] else [s[0]] + UpToSlash(s[1..])
  }

  lemma {:induction false} UpToSlashOf(x: string, z: string)
    requires '/' !in x
    ensures UpToSlash(x + "/" + z) == x
    decreases |x|
  {
    if x == [] {
      assert (x + "/" + z)[0] == '/';
    } else {
      assert (x + "/" + z)[0] == x[0];
      assert (x + "/" + z)[1..] == x[1..] + "/" + z;
      UpToSlashOf(x[1..], z);
      assert [x[0]] + x[1..] == x;
    }
  }

  /** Two names followed by a slash line up only when they are the same name. */
  lemma NameSlashPrefix(x: string, y: string, rest: string)
    requires '/' !in x && '/' !in y
    ensures StartsWith(y + "/" + rest, x + "/") <==> x == y
    ensures !StartsWith(y, x + "/")
  {
    var s := y + "/" + rest;
    if StartsWith(s, x + "/") {
      assert s == x + "/" + s[|x| + 1..];
      UpToSlashOf(x, s[|x| + 1..]);
      UpToSlashOf(y, rest);
    }
    if x == y {
      assert s[..|x + "/"|] == x + "/";
    }
  }

  lemma StartsWithTrans(s: string, t: string, u: string)
    requires StartsWith(s, t) && StartsWith(t, u)
    ensures StartsWith(s, u)
  {
    assert s[..|u|] == s[..|t|][..|u|];
  }

  lemma StrictlyBelowCons(dir: Path, p: Path)
    requires dir != [] && p != []
    ensures StrictlyBelow(dir, p) <==> dir[0] == p[0] && StrictlyBelow(dir[1..], p[1..])
  {
    if |dir| < |p| {
      assert p[..|dir|] == [p[0]] + p[1..][..|dir| - 1];
      assert dir == [dir[0]] + dir[1..];
    }
  }

  lemma {:induction false} JoinPrefix(dir: Path, p: Path)
    requires IsCanonical(dir) && IsCanonical(p) && dir != []
    ensures StartsWith(Join(p, '/'), Join(dir, '/') + "/") <==> StrictlyBelow(dir, p)
    decreases |dir|
  {
    var d := dir[0];
    var dj := Join(dir, '/') + "/";
    JoinStartsWithFirst(dir);
    assert StartsWith(dj, d + "/") by {
      if |dir| > 1 {
        assert dj == (d + "/") + (Join(dir[1..], '/') + "/");
      }
    }
    if p == [] {
      assert Join(p, '/') == "";
    } else if |p| == 1 {
      assert Join(p, '/') == p[0];
      NameSlashPrefix(d, p[0], "");
      if StartsWith(p[0], dj) {
        StartsWithTrans(p[0], dj, d + "/");
      }
    } else {
      var a := p[0];
      var pj := Join(p[1..], '/');
      JoinStartsWithFirst(p);
      NameSlashPrefix(d, a, pj);
      StrictlyBelowCons(dir, p);
      if a != d {
        if StartsWith(Join(p, '/'), dj) {
          StartsWithTrans(Join(p, '/'), dj, d + "/");
        }
      } else if |dir| == 1 {
        assert dj == d + "/";
      } else {
        var rj := Join(dir[1..], '/') + "/";
        assert dj == (d + "/") + rj;
        assert Join(p, '/') == (d + "/") + pj;
        StartsWithSame(d + "/", pj, rj);
        JoinPrefix(dir[1..], p[1..]);
      }
    }
  }

}
