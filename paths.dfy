/** POSIX path operations (Python's `posixpath`) on paths kept as component
    sequences: `"/a/b"` is `Path(true, ["a", "b"])`, `"a//./b/"` is
    `Path(false, ["a", "", ".", "b", ""])`. Everything is lexical: nothing
    here looks at the file system. */
module Paths {

  datatype Path = Path(absolute: bool, parts: seq<string>)

  /** A component that `normpath` keeps as it is: not empty, not `.`,
      not `..`. */
  predicate IsName(c: string)
  {
    c != "" && c != "." && c != ".."
  }

  predicate AllNames(cs: seq<string>)
  {
    forall k :: 0 <= k < |cs| ==> IsName(cs[k])
  }

  /** What `normpath` produces: no empty or `.` component, no `..` at all in
      an absolute path, and `..` only in a leading run of a relative one. */
  predicate NormalParts(absolute: bool, cs: seq<string>)
  {
    && (forall k :: 0 <= k < |cs| ==> cs[k] != "" && cs[k] != ".")
    && (absolute ==> forall k :: 0 <= k < |cs| ==> cs[k] != "..")
    && (forall i, j :: 0 <= i < j < |cs| && cs[j] == ".." ==> cs[i] == "..")
  }

  predicate Normal(p: Path)
  {
    NormalParts(p.absolute, p.parts)
  }

  /** One turn of the loop in `normpath` over the components: skip empty and
      `.`, let `..` cancel the previous name (or vanish at the root of an
      absolute path), keep everything else. */
  function Step(absolute: bool, acc: seq<string>, c: string): seq<string>
  {
    if c == "" || c == "." then acc
    else if c != ".." || (!absolute && acc == []) || (acc != [] && acc[|acc| - 1] == "..") then acc + [c]
    else if acc != [] then acc[..|acc| - 1]
    else acc
  }

  function Fold(absolute: bool, acc: seq<string>, cs: seq<string>): seq<string>
    decreases |cs|
  {
    if cs == [] then acc else Fold(absolute, Step(absolute, acc, cs[0]), cs[1..])
  }

  /** `os.path.normpath`. The empty relative component sequence is `.`. */
  function NormPath(p: Path): (r: Path)
    ensures r.absolute == p.absolute && Normal(r)
  {
    FoldNormal(p.absolute, [], p.parts);
    Path(p.absolute, Fold(p.absolute, [], p.parts))
  }

  function DropTrailingEmpty(cs: seq<string>): seq<string>
  {
    if cs != [] && cs[|cs| - 1] == "" then cs[..|cs| - 1] else cs
  }

  /** `os.path.join(a, b)`: an absolute `b` replaces `a`; otherwise `b` is
      added after `a`, with no doubled separator when `a` ends in one. */
  function Join(a: Path, b: Path): Path
  {
    if b.absolute then b else Path(a.absolute, DropTrailingEmpty(a.parts) + b.parts)
  }

  /** `os.path.abspath`, with the working directory `cwd` as a parameter. */
  function AbsPath(p: Path, cwd: Path): (r: Path)
    requires cwd.absolute
    ensures r.absolute && AllNames(r.parts)
  {
    NormPath(Join(cwd, p))
  }

  function Repeat(c: string, n: nat): (r: seq<string>)
    ensures |r| == n && forall k :: 0 <= k < n ==> r[k] == c
  {
    if n == 0 then [] else [c] + Repeat(c, n - 1)
  }

  /** The length of the longest common prefix (`os.path.commonprefix` on
      component lists). */
  function CommonPrefix(a: seq<string>, b: seq<string>): (n: nat)
    ensures n <= |a| && n <= |b| && a[..n] == b[..n]
    ensures n < |a| && n < |b| ==> a[n] != b[n]
  {
    if a == [] || b == [] || a[0] != b[0] then 0
    else
      var n := CommonPrefix(a[1..], b[1..]);
      assert a[..n + 1] == [a[0]] + a[1..][..n];
      assert b[..n + 1] == [b[0]] + b[1..][..n];
      n + 1
  }

  /** The components `os.path.relpath` produces for the absolute component
      lists `s` (the start) and `q` (the target): climb out of `s` to the
      common prefix with `..`, then descend into `q`; `.` when they are the
      same. */
  function RelParts(s: seq<string>, q: seq<string>): seq<string>
  {
    var i := CommonPrefix(s, q);
    var rel := Repeat("..", |s| - i) + q[i..];
    if rel == [] then ["."] else rel
  }

  /** `os.path.relpath(p, start)`. */
  function RelPath(p: Path, start: Path, cwd: Path): (r: Path)
    requires cwd.absolute
    ensures !r.absolute
  {
    Path(false, RelParts(AbsPath(start, cwd).parts, AbsPath(p, cwd).parts))
  }

  // Lemmas about the fold ----------------------------------------------------

  lemma {:induction false} FoldNormal(absolute: bool, acc: seq<string>, cs: seq<string>)
    requires NormalParts(absolute, acc)
    ensures NormalParts(absolute, Fold(absolute, acc, cs))
    decreases |cs|
  {
    if cs != [] {
      var next := Step(absolute, acc, cs[0]);
      assert NormalParts(absolute, next) by {
        if cs[0] != "" && cs[0] != "." && cs[0] == ".." && acc != [] && acc[|acc| - 1] == ".." {
          assert forall k :: 0 <= k < |acc| ==> acc[k] == "..";
        }
      }
      FoldNormal(absolute, next, cs[1..]);
    }
  }

  lemma {:induction false} FoldAppend(absolute: bool, acc: seq<string>, x: seq<string>, y: seq<string>)
    ensures Fold(absolute, acc, x + y) == Fold(absolute, Fold(absolute, acc, x), y)
    decreases |x|
  {
    if x == [] {
      assert x + y == y;
    } else {
      assert (x + y)[1..] == x[1..] + y;
      FoldAppend(absolute, Step(absolute, acc, x[0]), x[1..], y);
    }
  }

  lemma FoldSnoc(absolute: bool, acc: seq<string>, x: seq<string>, c: string)
    ensures Fold(absolute, acc, x + [c]) == Step(absolute, Fold(absolute, acc, x), c)
  {
    FoldAppend(absolute, acc, x, [c]);
  }

  /** Names are appended unchanged. */
  lemma {:induction false} FoldNames(absolute: bool, acc: seq<string>, cs: seq<string>)
    requires AllNames(cs)
    ensures Fold(absolute, acc, cs) == acc + cs
    decreases |cs|
  {
    if cs != [] {
      FoldNames(absolute, acc + [cs[0]], cs[1..]);
      assert acc + [cs[0]] + cs[1..] == acc + cs;
    }
  }

  /** Each `..` removes one trailing name. */
  lemma {:induction false} FoldUps(absolute: bool, acc: seq<string>, k: nat)
    requires AllNames(acc) && k <= |acc|
    ensures Fold(absolute, acc, Repeat("..", k)) == acc[..|acc| - k]
    decreases k
  {
    if k > 0 {
      assert Repeat("..", k)[1..] == Repeat("..", k - 1);
      var next := acc[..|acc| - 1];
      assert Step(absolute, acc, "..") == next;
      FoldUps(absolute, next, k - 1);
      assert next[..|next| - (k - 1)] == acc[..|acc| - k];
    } else {
      assert acc[..|acc|] == acc;
    }
  }

  /** A trailing empty component changes nothing. */
  lemma FoldDropTrailing(absolute: bool, acc: seq<string>, x: seq<string>, y: seq<string>)
    ensures Fold(absolute, acc, DropTrailingEmpty(x) + y) == Fold(absolute, acc, x + y)
  {
    if x != [] && x[|x| - 1] == "" {
      var x' := x[..|x| - 1];
      assert x == x' + [""];
      assert x + y == x' + ([""] + y);
      FoldAppend(absolute, acc, x', [""] + y);
      FoldAppend(absolute, acc, x', y);
      assert ([""] + y)[1..] == y;
    }
  }

  /** Normalising a relative path first, then applying it, is the same as
      applying it directly: `normpath(join(a, normpath(b))) ==
      normpath(join(a, b))` at the level of the fold. */
  lemma {:induction false} FoldNorm(absolute: bool, acc: seq<string>, b: seq<string>)
    ensures Fold(absolute, acc, b) == Fold(absolute, acc, Fold(false, [], b))
    decreases |b|
  {
    if b != [] {
      var b', c := b[..|b| - 1], b[|b| - 1];
      assert b == b' + [c];
      FoldNorm(absolute, acc, b');
      FoldSnoc(absolute, acc, b', c);
      FoldSnoc(false, [], b', c);
      FoldNormal(false, [], b');
      FoldStepNorm(absolute, acc, Fold(false, [], b'), c);
    }
  }

  /** One more component after a normalised relative prefix `n`: applying
      it to `n` first and then folding is applying it after folding `n`. */
  lemma FoldStepNorm(absolute: bool, acc: seq<string>, n: seq<string>, c: string)
    requires NormalParts(false, n)
    ensures Fold(absolute, acc, Step(false, n, c)) == Step(absolute, Fold(absolute, acc, n), c)
  {
    if c == "" || c == "." {
    } else if c != ".." || n == [] || n[|n| - 1] == ".." {
      FoldSnoc(absolute, acc, n, c);
    } else {
      var m, x := n[..|n| - 1], n[|n| - 1];
      assert n == m + [x];
      assert IsName(x);
      FoldSnoc(absolute, acc, m, x);
    }
  }

  // Properties of the path operations ---------------------------------------

  /** `normpath` is idempotent. */
  lemma NormPathIdempotent(p: Path)
    ensures NormPath(NormPath(p)) == NormPath(p)
  {
    var cs := Fold(p.absolute, [], p.parts);
    if p.absolute {
      FoldNormal(true, [], p.parts);
      assert AllNames(cs);
      FoldNames(true, [], cs);
    } else {
      FoldNorm(false, [], p.parts);
    }
  }

  /** `normpath(join(a, normpath(b))) == normpath(join(a, b))`. */
  lemma NormJoinNorm(a: Path, b: Path)
    ensures NormPath(Join(a, NormPath(b))) == NormPath(Join(a, b))
  {
    if b.absolute {
      NormPathIdempotent(b);
    } else {
      var d := DropTrailingEmpty(a.parts);
      FoldAppend(a.absolute, [], d, Fold(false, [], b.parts));
      FoldAppend(a.absolute, [], d, b.parts);
      FoldNorm(a.absolute, Fold(a.absolute, [], d), b.parts);
    }
  }

  /** `abspath(join(root, rel))` for a relative `rel` applies `rel` to
      `abspath(root)`. */
  lemma AbsJoin(root: Path, rel: Path, cwd: Path)
    requires cwd.absolute && !rel.absolute
    ensures AbsPath(Join(root, rel), cwd) == Path(true, Fold(true, AbsPath(root, cwd).parts, rel.parts))
  {
    var dr := DropTrailingEmpty(root.parts);
    if root.absolute {
      FoldAppend(true, [], dr, rel.parts);
      FoldDropTrailing(true, [], root.parts, []);
      assert dr + [] == dr && root.parts + [] == root.parts;
    } else {
      var dc := DropTrailingEmpty(cwd.parts);
      assert dc + (dr + rel.parts) == (dc + dr) + rel.parts;
      FoldAppend(true, [], dc + dr, rel.parts);
      FoldAppend(true, [], dc, dr);
      FoldAppend(true, [], dc, root.parts);
      FoldDropTrailing(true, Fold(true, [], dc), root.parts, []);
      assert dr + [] == dr && root.parts + [] == root.parts;
    }
  }

  /** `abspath(normpath(p)) == abspath(p)`. */
  lemma AbsNorm(p: Path, cwd: Path)
    requires cwd.absolute
    ensures AbsPath(NormPath(p), cwd) == AbsPath(p, cwd)
  {
    NormJoinNorm(cwd, p);
  }

  /** Applying the relative components from `s` to `q` onto `s` gives `q`. */
  lemma RelPartsApply(s: seq<string>, q: seq<string>)
    requires AllNames(s) && AllNames(q)
    ensures Fold(true, s, RelParts(s, q)) == q
  {
    var i := CommonPrefix(s, q);
    if i == |s| && i == |q| {
      RelPartsSame(s, q);
    } else {
      RelPartsApart(s, q);
    }
  }

  /** `relpath` of a path from itself is `.`, which leaves the start. */
  lemma RelPartsSame(s: seq<string>, q: seq<string>)
    requires CommonPrefix(s, q) == |s| == |q|
    ensures Fold(true, s, RelParts(s, q)) == q
  {
    var i := CommonPrefix(s, q);
    assert RelParts(s, q) == ["."] by {
      assert Repeat("..", |s| - i) + q[i..] == [];
    }
    FoldDot(s);
    assert s == s[..i] == q[..i] == q;
  }

  /** Otherwise it climbs to the common prefix and descends into `q`. */
  lemma RelPartsApart(s: seq<string>, q: seq<string>)
    requires AllNames(s) && AllNames(q)
    requires CommonPrefix(s, q) < |s| || CommonPrefix(s, q) < |q|
    ensures Fold(true, s, RelParts(s, q)) == q
  {
    var i := CommonPrefix(s, q);
    var rel := Repeat("..", |s| - i) + q[i..];
    assert |rel| == |s| - i + |q| - i > 0;
    assert RelParts(s, q) == rel;
    AllNamesSuffix(q, i);
    UpsThenNames(s, i, q[i..]);
    PrefixThenRest(s, q, i);
  }

  lemma AllNamesSuffix(q: seq<string>, i: nat)
    requires AllNames(q) && i <= |q|
    ensures AllNames(q[i..])
  {
    forall k | 0 <= k < |q| - i ensures IsName(q[i..][k]) {
      assert q[i..][k] == q[i + k];
    }
  }

  lemma PrefixThenRest(s: seq<string>, q: seq<string>, i: nat)
    requires i <= |s| && i <= |q| && s[..i] == q[..i]
    ensures s[..i] + q[i..] == q
  {
    assert q[..i] + q[i..] == q;
  }

  lemma FoldDot(s: seq<string>)
    ensures Fold(true, s, ["."]) == s
  {
    assert ["."][1..] == [];
  }

  lemma UpsThenNames(s: seq<string>, i: nat, down: seq<string>)
    requires AllNames(s) && i <= |s| && AllNames(down)
    ensures Fold(true, s, Repeat("..", |s| - i) + down) == s[..i] + down
  {
    FoldAppend(true, s, Repeat("..", |s| - i), down);
    FoldUps(true, s, |s| - i);
    FoldNames(true, s[..i], down);
  }

  /** `relpath` is the inverse of joining onto the start: resolved against
      the same working directory, `normpath(join(start, normpath(relpath(p,
      start))))` names the same absolute path as `p`. */
  lemma RelPathRoundTrip(p: Path, start: Path, cwd: Path)
    requires cwd.absolute
    ensures AbsPath(NormPath(Join(start, NormPath(RelPath(p, start, cwd)))), cwd) == AbsPath(p, cwd)
  {
    var rel := RelPath(p, start, cwd);
    var stored := NormPath(rel);
    var s := AbsPath(start, cwd).parts;
    AbsNorm(Join(start, stored), cwd);
    AbsJoin(start, stored, cwd);
    FoldNorm(true, s, rel.parts);
    RelPartsApply(s, AbsPath(p, cwd).parts);
  }

  /** An absolute, normalised path comes back unchanged from
      `normpath(join(start, ·))`, whatever `start` is. */
  lemma AbsPathJoinFixed(p: Path, start: Path, cwd: Path)
    requires cwd.absolute
    ensures NormPath(Join(start, AbsPath(p, cwd))) == AbsPath(p, cwd)
  {
    NormPathIdempotent(Join(cwd, p));
  }

  /** Joining a single name onto a path extends its absolute form by that
      name. */
  lemma AbsJoinName(p: Path, name: string, cwd: Path)
    requires cwd.absolute && IsName(name)
    ensures AbsPath(Join(p, Path(false, [name])), cwd).parts == AbsPath(p, cwd).parts + [name]
  {
    AbsJoin(p, Path(false, [name]), cwd);
    FoldNames(true, AbsPath(p, cwd).parts, [name]);
  }

  /** The components of `name` joined onto `dir`, joined onto an absolute
      `cwd`: those of `dir` joined onto `cwd`, without a trailing empty
      component unless `dir` is the empty relative path, then `name`. */
  lemma JoinNameParts(cwd: Path, dir: Path, name: string)
    requires cwd.absolute
    ensures var q := Join(cwd, dir).parts;
            Join(cwd, Join(dir, Path(false, [name]))).parts
              == (if !dir.absolute && dir.parts == [] then q else DropTrailingEmpty(q)) + [name]
  {
    if !dir.absolute && dir.parts != [] {
      var c := DropTrailingEmpty(cwd.parts);
      assert DropTrailingEmpty(c + dir.parts) == c + DropTrailingEmpty(dir.parts);
    }
  }
}
