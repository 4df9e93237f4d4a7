/**
 * The parts of Node's POSIX `path` module the image transcoder uses.
 * A path is modelled as the list of its segments (absolute and already
 * normalised: `[]` is `/`); `extname` and `basename` are modelled on a single
 * entry name as returned by `readdir`, which never holds a `/`.
 */
module NodePath {
  import opened Strings

  type Path = seq<string>

  /** A name `readdir` can return: non-empty, neither `.` nor `..`, and without `/`. */
  predicate ValidName(n: string) {
    |n| > 0 && n != "." && n != ".." && '/' !in n
  }

  predicate NormalPath(p: Path) {
    forall i :: 0 <= i < |p| ==> ValidName(p[i])
  }

  /** `p` is `base` or lies below it. */
  predicate Under(base: Path, p: Path) {
    |base| <= |p| && p[..|base|] == base
  }

  function Last(p: Path): string
    requires |p| > 0
  {
    p[|p| - 1]
  }

  function Parent(p: Path): Path
    requires |p| > 0
  {
    p[..|p| - 1]
  }

  // ---- extname and basename ----

  /**
   * `path.extname(name)`: from the last `.` to the end, or "" when there is no
   * dot, when the only dot is the first character, or for `..`.
   */
  function ExtName(name: string): (ext: string)
    ensures ext == "" || (0 < |ext| < |name| && ext[0] == '.' && '.' !in ext[1..]
                          && name == name[..|name| - |ext|] + ext)
  {
    var d := LastIndexOf(name, '.');
    if d <= 0 || name == ".." then "" else name[d..]
  }

  /** `path.basename(name, suffix)`: `name` without `suffix` when it ends with it exactly. */
  function BaseName(name: string, suffix: string): string {
    if |suffix| == 0 || |suffix| > |name| then name
    else if suffix == name then ""
    else if EndsWith(name, suffix) then name[..|name| - |suffix|]
    else name
  }

  /** The extension of `stem.x` is `.x` whenever `stem` is non-empty and `x` has no dot. */
  lemma ExtNameOf(stem: string, x: string)
    requires |stem| > 0 && '.' !in x && stem + "." + x != ".."
    ensures ExtName(stem + "." + x) == "." + x
  {
    var name := stem + "." + x;
    assert name[|stem|] == '.';
    assert name[|stem| + 1..] == x;
    LastIndexOfIs(name, '.', |stem|);
    assert name[|stem|..] == "." + x;
  }

  /** Stripping the name's own extension leaves exactly what precedes it. */
  lemma BaseNameOfExtName(name: string)
    requires ExtName(name) != ""
    ensures BaseName(name, ExtName(name)) + ExtName(name) == name
  {
  }

  /**
   * The transcoder strips the LOWER-CASED extension. `basename` only strips an
   * exact suffix, so a name whose extension has upper-case letters keeps it:
   * `Photo.PNG` stays `Photo.PNG`.
   */
  lemma BaseNameOfLoweredExt(name: string)
    requires ExtName(name) != ""
    ensures var e := ExtName(name);
            BaseName(name, ToLower(e)) == if ToLower(e) == e then name[..|name| - |e|] else name
  {
    var e := ExtName(name);
    assert name[|name| - |e|..] == e;
  }

  // ---- relative and join ----

  /** The number of leading segments `a` and `b` share. */
  function CommonPrefix(a: Path, b: Path): (k: nat)
    ensures k <= |a| && k <= |b| && a[..k] == b[..k]
    ensures k < |a| && k < |b| ==> a[k] != b[k]
  {
    if |a| == 0 || |b| == 0 || a[0] != b[0] then 0
    else
      var k := CommonPrefix(a[1..], b[1..]);
      assert a[..k + 1] == [a[0]] + a[1..][..k];
      assert b[..k + 1] == [b[0]] + b[1..][..k];
      k + 1
  }

  function Ups(n: nat): (p: Path)
    ensures |p| == n && forall i :: 0 <= i < n ==> p[i] == ".."
  {
    seq(n, _ => "..")
  }

  /** `path.relative(from, to)`: climb out of `from` to the shared part, then descend. */
  function Relative(from: Path, to: Path): Path {
    var k := CommonPrefix(from, to);
    Ups(|from| - k) + to[k..]
  }

  /** One segment of `path.join`'s normalisation: `..` climbs (never above `/`), `.` and "" vanish. */
  function Push(acc: Path, seg: string): Path {
    if seg == ".." then (if |acc| == 0 then acc else acc[..|acc| - 1])
    else if seg == "." || seg == "" then acc
    else acc + [seg]
  }

  /** `path.join(base, rel)` for a normalised `base`. */
  function Join(base: Path, rel: Path): Path
    decreases |rel|
  {
    if |rel| == 0 then base else Join(Push(base, rel[0]), rel[1..])
  }

  /** Joining plain names only appends them. */
  lemma {:induction false} JoinNormal(base: Path, rel: Path)
    requires NormalPath(rel)
    ensures Join(base, rel) == base + rel
    decreases |rel|
  {
    if |rel| > 0 {
      JoinNormal(base + [rel[0]], rel[1..]);
      assert base + [rel[0]] + rel[1..] == base + rel;
    }
  }

  /** Each leading `..` removes one segment of the base. */
  lemma {:induction false} JoinUps(base: Path, m: nat, rest: Path)
    requires m <= |base|
    ensures Join(base, Ups(m) + rest) == Join(base[..|base| - m], rest)
    decreases m
  {
    if m > 0 {
      assert (Ups(m) + rest)[0] == "..";
      assert (Ups(m) + rest)[1..] == Ups(m - 1) + rest;
      assert base[..|base| - 1][..|base| - 1 - (m - 1)] == base[..|base| - m];
      JoinUps(base[..|base| - 1], m - 1, rest);
    } else {
      assert Ups(m) + rest == rest && base[..|base|] == base;
    }
  }

  /** `path.join(from, path.relative(from, to))` leads back to `to`. */
  lemma JoinRelative(from: Path, to: Path)
    requires NormalPath(to)
    ensures Join(from, Relative(from, to)) == to
  {
    var k := CommonPrefix(from, to);
    JoinUps(from, |from| - k, to[k..]);
    assert from[..|from| - (|from| - k)] == to[..k];
    JoinNormal(to[..k], to[k..]);
    assert to[..k] + to[k..] == to;
  }

  /** Relative to an ancestor, a path is just its remaining segments. */
  lemma RelativeUnder(from: Path, to: Path)
    requires Under(from, to)
    ensures Relative(from, to) == to[|from|..]
  {
    assert to[..|from|] == from;
  }
}
