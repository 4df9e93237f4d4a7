/**
 * The loader and the transcoder follow one naming convention: for a file of
 * `public/` that the transcoder copies or encodes, the URL the loader builds for
 * the file's own reference (its path below `public/`, which Next.js serves at
 * `/`) leads, before its query, to the artifact the transcoder writes. This holds
 * for every copied keep-PNG; for encoded images it needs two conditions, and a
 * counterexample shows each of them to be necessary:
 * - the loader looks for `.keep` anywhere in the path, the transcoder only in
 *   the file's name, so no directory below `public/` may hold `.keep`;
 * - `basename` strips the lower-cased extension only when the name ends with it
 *   exactly, while the loader strips any final extension, so the extension must
 *   be written in lower case.
 * A third condition comes from how a URL is read: the loader pastes the path into
 * the URL as it is, so no segment of it may hold `?` or `#`, which would end the
 * URL's path early.
 */
module Agreement {
  import opened Wrappers
  import opened Strings
  import opened NodePath
  import opened Transcoding
  import opened TranscodingProperties
  import Loader

  /** A segment a URL parser reads as part of the path: it holds no `?` and no `#`. */
  predicate UrlSafe(s: string) {
    '?' !in s && '#' !in s
  }

  /** The URL under which the file `p` of `public/` is served. */
  function PublicUrl(p: Path): string
    requires Under(PublicDir, p)
  {
    "/" + JoinWith('/', p[|PublicDir|..])
  }

  /** `lead + last` is the join of `dirs + [last]`: the directories, each followed by `/`. */
  function Lead(dirs: seq<string>): string {
    if |dirs| == 0 then "" else JoinWith('/', dirs) + "/"
  }

  /** A path joined with `/` is its directories, each followed by `/`, and then its last segment. */
  lemma JoinRel(dirs: seq<string>, last: string)
    ensures JoinWith('/', dirs + [last]) == Lead(dirs) + last
  {
    if |dirs| > 0 {
      JoinWithSnoc('/', dirs, last);
    } else {
      assert dirs + [last] == [last];
    }
  }

  /** A path below a directory `a` is served under `/a/`. */
  lemma PrefixedUrl(a: string, rest: seq<string>)
    requires |rest| > 0
    ensures "/" + JoinWith('/', [a] + rest) == "/" + a + "/" + JoinWith('/', rest)
  {
    JoinWithCons('/', a, rest);
  }

  /** A path below `dist/` is served under `/dist/`. */
  lemma DistUrl(rest: seq<string>)
    requires |rest| > 0
    ensures "/" + JoinWith('/', ["dist"] + rest) == "/dist/" + JoinWith('/', rest)
  {
    PrefixedUrl("dist", rest);
    DistSegment();
  }

  /** The literal text of the `/dist/` prefix. */
  lemma DistSegment()
    ensures "/" + "dist" + "/" == "/dist/"
  {
  }

  /** The reference of a file below `public/` is local, and the loader works on it without its `/`. */
  lemma RelUrlLocal(rel: seq<string>)
    requires |rel| > 0 && NormalPath(rel)
    ensures !Loader.IsExternal("/" + JoinWith('/', rel))
    ensures Loader.StripLeadingSlash("/" + JoinWith('/', rel)) == JoinWith('/', rel)
  {
    var j := JoinWith('/', rel);
    JoinWithStartsWith('/', rel);
    assert ValidName(rel[0]);
    assert j[0] == rel[0][0];
    Loader.RootedIsLocal("/" + j);
    assert ("/" + j)[1..] == j;
  }

  /** `dist/` is the directory `dist` inside `public/`. */
  lemma DistIsPublicDist()
    ensures DistDir == PublicDir + ["dist"]
  {
  }

  /** Below a base `b`, a source and a target placed under `b/d` at the source's relative directory. */
  lemma SplitBelow(b: Path, d: string, src: Path, t: Path)
    requires |b| < |src| && src[..|b|] == b && |t| > 0
    requires Parent(t) == b + [d] + Parent(src)[|b|..]
    ensures var dirs := Parent(src)[|b|..];
            && Under(b, t)
            && src[|b|..] == dirs + [Last(src)]
            && t[|b|..] == [d] + (dirs + [Last(t)])
            && (NormalPath(src) ==> NormalPath(src[|b|..]))
  {
    var dirs := Parent(src)[|b|..];
    assert src == Parent(src) + [Last(src)];
    assert t == Parent(t) + [Last(t)];
    assert t == b + ([d] + dirs + [Last(t)]);
    assert forall i :: 0 <= i < |src| - |b| ==> src[|b|..][i] == src[|b| + i];
  }

  /** A file of the plan, split into its directories below `public/` and its name. */
  lemma MirroredPaths(w: Write)
    requires Mirrors(PublicDir, w)
    ensures var src := w.artifact.src;
            var dirs := Parent(src)[|PublicDir|..];
            && Under(PublicDir, src) && Under(PublicDir, w.target)
            && src[|PublicDir|..] == dirs + [Last(src)]
            && w.target[|PublicDir|..] == ["dist"] + (dirs + [Last(w.target)])
            && NormalPath(dirs + [Last(src)])
  {
    DistIsPublicDist();
    SplitBelow(PublicDir, "dist", w.artifact.src, w.target);
  }

  // ---- the file-name facts ----

  lemma KeepPngKind(name: string)
    requires Classify(name) == KeepPng
    ensures Ext(name) == ".png" && Contains(NameWithoutExt(name), KeepPngMarker)
  {
  }

  /** A name the transcoder converts has a `.jpg`, `.jpeg` or `.png` extension, and a `.png` one lacks `.keep`. */
  lemma ConvertibleKind(name: string)
    requires Classify(name) == Convertible
    ensures Ext(name) == ".jpg" || Ext(name) == ".jpeg" || Ext(name) == ".png"
    ensures Ext(name) == ".png" ==> !Contains(NameWithoutExt(name), KeepPngMarker)
  {
  }

  /** The loader's last dot-piece of a name with an extension is the extension without its dot. */
  lemma ExtPiece(name: string)
    requires ExtName(name) != ""
    ensures '.' in name && name[LastIndexOf(name, '.') + 1..] == ExtName(name)[1..]
  {
    var e := ExtName(name);
    var d := |name| - |e|;
    assert name[d] == e[0] == '.';
    assert name[d + 1..] == e[1..];
    LastIndexOfIs(name, '.', d);
  }

  /** Whatever suffix is removed, what the base name holds the name holds. */
  lemma BaseNameContains(name: string, suffix: string, p: string)
    requires Contains(BaseName(name, suffix), p)
    ensures Contains(name, p)
  {
    var b := BaseName(name, suffix);
    if b == "" {
      assert OccursAt(name, p, 0);
    } else if b != name {
      var k := |name| - |suffix|;
      assert b == name[..k];
      ContainsInContext("", b, name[k..], p);
      assert "" + b + name[k..] == name;
    }
  }

  /** Lower-casing commutes with dropping the first character. */
  lemma ToLowerTail(e: string)
    requires |e| > 0
    ensures ToLower(e)[1..] == ToLower(e[1..])
  {
  }

  /** A keep-PNG's name holds `.keep`, and its last dot-piece reads `png` in lower case. */
  lemma KeepPngName(name: string)
    requires Classify(name) == KeepPng
    ensures Contains(name, KeepPngMarker)
    ensures '.' in name && ToLower(name[LastIndexOf(name, '.') + 1..]) == "png"
  {
    KeepPngKind(name);
    var e := ExtName(name);
    assert |ToLower(e)| == 4;
    BaseNameContains(name, ToLower(e), KeepPngMarker);
    ExtPiece(name);
    ToLowerTail(e);
  }

  /** A convertible name with a lower-case extension is `stem.x`, where the loader's `x` never reads `png` with a `.keep` about. */
  lemma ConvertibleName(name: string)
    requires ValidName(name) && Classify(name) == Convertible && ToLower(ExtName(name)) == ExtName(name)
    ensures var e := ExtName(name);
            var stem := name[..|name| - |e|];
            && |e| > 1 && name == stem + "." + e[1..]
            && '.' !in e[1..] && '/' !in e[1..]
            && NameWithoutExt(name) == stem
            && ToLower(e[1..]) == e[1..]
            && (e[1..] == "png" ==> !Contains(name, KeepPngMarker))
  {
    ConvertibleKind(name);
    var e := ExtName(name);
    var stem := name[..|name| - |e|];
    assert |e| >= 4;
    BaseNameOfLoweredExt(name);
    ConvertibleShape(name, e, stem);
    ToLowerTail(e);
    if e[1..] == "png" {
      assert e == "." + e[1..];
      KeepNotAcrossPng(stem);
    }
  }

  /** A name with an extension is its stem, a dot and the extension's text, which holds no dot or `/`. */
  lemma ConvertibleShape(name: string, e: string, stem: string)
    requires e == ExtName(name) && |e| > 1 && stem == name[..|name| - |e|] && '/' !in name
    ensures name == stem + "." + e[1..] && '.' !in e[1..] && '/' !in e[1..]
  {
    assert name == stem + e;
    assert e == "." + e[1..];
    assert name == stem + ("." + e[1..]);
  }

  /** `.keep` cannot straddle the `.png` suffix. */
  lemma KeepNotAcrossPng(stem: string)
    ensures Contains(stem + ".png", KeepPngMarker) ==> Contains(stem, KeepPngMarker)
  {
    var s := stem + ".png";
    if Contains(s, KeepPngMarker) {
      var i :| 0 <= i <= |s| - 5 && OccursAt(s, KeepPngMarker, i);
      assert s[|stem|] == '.';
      assert forall j :: 0 <= j < 5 ==> s[i + j] == KeepPngMarker[j];
      assert i + 5 <= |stem|;
      assert stem[i..i + 5] == s[i..i + 5];
      assert OccursAt(stem, KeepPngMarker, i);
    }
  }

  // ---- agreement for one path ----

  /** The loader's keep rule holds for a path whose last segment satisfies the transcoder's. */
  lemma KeepPathIsKeep(lead: string, name: string)
    requires Contains(name, KeepPngMarker) && '.' in name
    requires ToLower(name[LastIndexOf(name, '.') + 1..]) == "png"
    ensures Loader.IsKeepPng(lead + name)
  {
    var j := lead + name;
    Loader.PieceAfterPrefix(lead, name);
    assert Loader.LastDotPiece(j) == name[LastIndexOf(name, '.') + 1..];
    ContainsInContext(lead, name, "", KeepPngMarker);
    assert lead + name + "" == j;
  }

  /** A keep-PNG at `public/dirs/name` is requested at `/dist/dirs/name`, the copy's own URL. */
  lemma KeepUrlAgrees(dirs: seq<string>, name: string, width: nat, quality: Option<nat>)
    requires NormalPath(dirs + [name]) && Classify(name) == KeepPng
    ensures Loader.ImageLoader("/" + JoinWith('/', dirs + [name]), width, quality)
            == "/" + JoinWith('/', ["dist"] + (dirs + [name]))
  {
    JoinRel(dirs, name);
    KeepPngName(name);
    KeepPathIsKeep(Lead(dirs), name);
    KeepJoinedUrl(dirs + [name], width, quality);
  }

  /** A path the loader keeps is requested under `/dist/` with nothing changed. */
  lemma KeepJoinedUrl(rel: seq<string>, width: nat, quality: Option<nat>)
    requires |rel| > 0 && NormalPath(rel) && Loader.IsKeepPng(JoinWith('/', rel))
    ensures Loader.ImageLoader("/" + JoinWith('/', rel), width, quality) == "/" + JoinWith('/', ["dist"] + rel)
  {
    var j := JoinWith('/', rel);
    RelUrlLocal(rel);
    Loader.KeepPngUrl("/" + j, width, quality);
    DistUrl(rel);
  }

  /**
   * A convertible image at `public/dirs/name` with a lower-case extension, below
   * directories without `.keep`, is requested at its WebP artifact's URL, with
   * the width and, when quality is truthy, the quality as the only parameters.
   */
  lemma EncodedUrlAgrees(dirs: seq<string>, name: string, width: nat, quality: Option<nat>)
    requires NormalPath(dirs + [name]) && Classify(name) == Convertible
    requires ToLower(ExtName(name)) == ExtName(name)
    requires forall i :: 0 <= i < |dirs| ==> !Contains(dirs[i], KeepPngMarker)
    requires UrlSafe(name) && forall i :: 0 <= i < |dirs| ==> UrlSafe(dirs[i])
    ensures var url := Loader.ImageLoader("/" + JoinWith('/', dirs + [name]), width, quality);
            && Loader.SplitUrl(url).0 == "/" + JoinWith('/', ["dist"] + (dirs + [NameWithoutExt(name) + ".webp"]))
            && Loader.QueryParameters(Loader.SplitUrl(url).1)
               == [("w", Decimal(width))] + (if Loader.IsTruthy(quality) then [("q", Decimal(quality.value))] else [])
  {
    assert ValidName(name) by { assert (dirs + [name])[|dirs|] == name; }
    var e := ExtName(name);
    ConvertibleName(name);
    EncodedNotKeep(dirs, name[..|name| - |e|], e[1..]);
    EncodedStripped(dirs, name);
    assert forall i :: 0 <= i < |dirs + [name]| ==> UrlSafe((dirs + [name])[i]);
    WebpJoinedUrl(dirs + [name], dirs + [NameWithoutExt(name) + ".webp"], width, quality);
  }

  /** Such an image is not one the loader keeps. */
  lemma EncodedNotKeep(dirs: seq<string>, stem: string, x: string)
    requires '.' !in x && ToLower(x) == x && (x == "png" ==> !Contains(stem + "." + x, KeepPngMarker))
    requires forall i :: 0 <= i < |dirs| ==> !Contains(dirs[i], KeepPngMarker)
    ensures !Loader.IsKeepPng(JoinWith('/', dirs + [stem + "." + x]))
  {
    PieceOfJoined(dirs, stem, x);
    if x == "png" {
      NoMarkerInJoin(dirs + [stem + "." + x]);
    }
    NotKeepByPiece(JoinWith('/', dirs + [stem + "." + x]), x);
  }

  /** The loader's final piece of a joined path is the extension of its last segment. */
  lemma PieceOfJoined(dirs: seq<string>, stem: string, x: string)
    requires '.' !in x
    ensures Loader.LastDotPiece(JoinWith('/', dirs + [stem + "." + x])) == x
  {
    JoinRel(dirs, stem + "." + x);
    Regroup4(Lead(dirs), stem, ".", x);
    Loader.LastDotPieceOf(Lead(dirs) + stem, x);
  }

  /** A path whose final piece is not `png`, or that lacks `.keep`, is not one the loader keeps. */
  lemma NotKeepByPiece(j: string, x: string)
    requires Loader.LastDotPiece(j) == x && ToLower(x) == x && (x == "png" ==> !Contains(j, KeepPngMarker))
    ensures !Loader.IsKeepPng(j)
  {
  }

  /** A join of parts none of which holds `.keep` does not hold it. */
  lemma NoMarkerInJoin(parts: seq<string>)
    requires |parts| > 0 && forall i :: 0 <= i < |parts| ==> !Contains(parts[i], KeepPngMarker)
    ensures !Contains(JoinWith('/', parts), KeepPngMarker)
  {
    ContainsInJoin('/', parts, KeepPngMarker);
  }

  /** The loader's extension stripping of such an image's path meets the transcoder's. */
  lemma EncodedStripped(dirs: seq<string>, name: string)
    requires ValidName(name) && Classify(name) == Convertible && ToLower(ExtName(name)) == ExtName(name)
    ensures Loader.StripExtension(JoinWith('/', dirs + [name])) + ".webp"
            == JoinWith('/', dirs + [NameWithoutExt(name) + ".webp"])
  {
    var e := ExtName(name);
    var stem := name[..|name| - |e|];
    ConvertibleName(name);
    JoinRel(dirs, name);
    Regroup4(Lead(dirs), stem, ".", e[1..]);
    Loader.StripExtensionOf(Lead(dirs) + stem, e[1..]);
    JoinRel(dirs, stem + ".webp");
    Regroup(Lead(dirs), stem, ".webp");
  }

  /** Concatenation of three strings regrouped. */
  lemma Regroup(a: string, b: string, c: string)
    ensures a + b + c == a + (b + c)
  {
  }

  /** Concatenation of four strings regrouped. */
  lemma Regroup4(a: string, b: string, c: string, d: string)
    ensures a + (b + c + d) == a + b + c + d
  {
  }

  /** A path the loader does not keep is requested at `/dist/` plus its stripped form plus `.webp`. */
  lemma WebpJoinedUrl(rel: seq<string>, target: seq<string>, width: nat, quality: Option<nat>)
    requires |rel| > 0 && NormalPath(rel) && |target| > 0
    requires !Loader.IsKeepPng(JoinWith('/', rel))
    requires Loader.StripExtension(JoinWith('/', rel)) + ".webp" == JoinWith('/', target)
    requires forall i :: 0 <= i < |rel| ==> UrlSafe(rel[i])
    ensures var url := Loader.ImageLoader("/" + JoinWith('/', rel), width, quality);
            && Loader.SplitUrl(url).0 == "/" + JoinWith('/', ["dist"] + target)
            && Loader.QueryParameters(Loader.SplitUrl(url).1)
               == [("w", Decimal(width))] + (if Loader.IsTruthy(quality) then [("q", Decimal(quality.value))] else [])
  {
    var j := JoinWith('/', rel);
    RelUrlLocal(rel);
    JoinWithHasNo('/', rel, '?');
    JoinWithHasNo('/', rel, '#');
    assert forall k :: 1 <= k < |"/" + j| ==> ("/" + j)[k] == j[k - 1];
    Loader.WebpUrl("/" + j, width, quality);
    DistUrl(target);
    Regroup("/dist/", Loader.StripExtension(j), ".webp");
  }

  // ---- agreement for every artifact of a walk over public/ ----

  lemma PublicIsPublic()
    ensures InPublic(PublicDir)
  {
  }

  /** A planned copy is served at the URL the loader builds for its source. */
  lemma MirroredCopyAgrees(w: Write, width: nat, quality: Option<nat>)
    requires Mirrors(PublicDir, w) && w.artifact.Copied?
    ensures Under(PublicDir, w.artifact.src) && Under(PublicDir, w.target)
    ensures Loader.ImageLoader(PublicUrl(w.artifact.src), width, quality) == PublicUrl(w.target)
  {
    MirroredPaths(w);
    var src := w.artifact.src;
    KeepUrlAgrees(Parent(src)[|PublicDir|..], Last(src), width, quality);
  }

  /** A planned encoding is served, before the query, at the URL the loader builds for its source. */
  lemma MirroredEncodeAgrees(w: Write, width: nat, quality: Option<nat>)
    requires Mirrors(PublicDir, w) && w.artifact.Encoded?
    requires ToLower(ExtName(Last(w.artifact.src))) == ExtName(Last(w.artifact.src))
    requires forall i :: |PublicDir| <= i < |w.artifact.src| - 1 ==> !Contains(w.artifact.src[i], KeepPngMarker)
    requires forall i :: |PublicDir| <= i < |w.artifact.src| ==> UrlSafe(w.artifact.src[i])
    ensures Under(PublicDir, w.artifact.src) && Under(PublicDir, w.target)
    ensures Loader.SplitUrl(Loader.ImageLoader(PublicUrl(w.artifact.src), width, quality)).0 == PublicUrl(w.target)
  {
    MirroredPaths(w);
    var src := w.artifact.src;
    var dirs := Parent(src)[|PublicDir|..];
    assert forall i :: 0 <= i < |dirs| ==> dirs[i] == src[|PublicDir| + i];
    assert Last(src) == src[|src| - 1];
    EncodedUrlAgrees(dirs, Last(src), width, quality);
  }

  /** Every keep-PNG the walk of `public/` copies is served at the URL the loader builds for its source. */
  lemma PlannedCopyAgrees(v: Variant, es: seq<Entry>, w: Write, width: nat, quality: Option<nat>)
    requires WellFormed(es) && w in Plan(v, PublicDir, es) && w.artifact.Copied?
    ensures Under(PublicDir, w.artifact.src) && Under(PublicDir, w.target)
    ensures Loader.ImageLoader(PublicUrl(w.artifact.src), width, quality) == PublicUrl(w.target)
  {
    PublicIsPublic();
    PlanMirrors(v, PublicDir, es);
    MirroredCopyAgrees(w, width, quality);
  }

  /**
   * Every image the walk of `public/` encodes is served, before the query, at the
   * URL the loader builds for its source, when its extension is in lower case, no
   * directory below `public/` on its way holds `.keep`, and no segment holds `?` or `#`.
   */
  lemma PlannedEncodeAgrees(v: Variant, es: seq<Entry>, w: Write, width: nat, quality: Option<nat>)
    requires WellFormed(es) && w in Plan(v, PublicDir, es) && w.artifact.Encoded?
    requires |w.artifact.src| > 0 && ToLower(ExtName(Last(w.artifact.src))) == ExtName(Last(w.artifact.src))
    requires forall i :: |PublicDir| <= i < |w.artifact.src| - 1 ==> !Contains(w.artifact.src[i], KeepPngMarker)
    requires forall i :: |PublicDir| <= i < |w.artifact.src| ==> UrlSafe(w.artifact.src[i])
    ensures Under(PublicDir, w.artifact.src) && Under(PublicDir, w.target)
    ensures Loader.SplitUrl(Loader.ImageLoader(PublicUrl(w.artifact.src), width, quality)).0 == PublicUrl(w.target)
  {
    PublicIsPublic();
    PlanMirrors(v, PublicDir, es);
    MirroredEncodeAgrees(w, width, quality);
  }

  /**
   * Every file the walk of `public/` leaves changed is an artifact of the plan, so
   * it is served at the URL the loader builds for its source: a copy exactly, an
   * encoding before the query under the three conditions above.
   */
  lemma WrittenFilesAgree(v: Variant, oracle: Oracle, es: seq<Entry>, fs: Fs, k: Path, width: nat, quality: Option<nat>)
    requires WellFormed(es)
    requires var files := Walk(v, oracle, PublicDir, Listed(es), fs).fs.files;
             k in files && (k !in fs.files || files[k] != fs.files[k])
    ensures var a := Walk(v, oracle, PublicDir, Listed(es), fs).fs.files[k];
            && Under(PublicDir, a.src) && Under(PublicDir, k)
            && (a.Copied? ==> Loader.ImageLoader(PublicUrl(a.src), width, quality) == PublicUrl(k))
            && (a.Encoded? && |a.src| > 0 && ToLower(ExtName(Last(a.src))) == ExtName(Last(a.src))
                && (forall i :: |PublicDir| <= i < |a.src| - 1 ==> !Contains(a.src[i], KeepPngMarker))
                && (forall i :: |PublicDir| <= i < |a.src| ==> UrlSafe(a.src[i]))
                ==> Loader.SplitUrl(Loader.ImageLoader(PublicUrl(a.src), width, quality)).0 == PublicUrl(k))
  {
    var r := Walk(v, oracle, PublicDir, Listed(es), fs);
    WalkWithinPlan(v, oracle, PublicDir, Listed(es), fs);
    var w := Write(k, r.fs.files[k]);
    assert w in Plan(v, PublicDir, es);
    if w.artifact.Copied? {
      PlannedCopyAgrees(v, es, w, width, quality);
    } else {
      PublicIsPublic();
      PlanMirrors(v, PublicDir, es);
      MirroredPaths(w);
      if |w.artifact.src| > 0 && ToLower(ExtName(Last(w.artifact.src))) == ExtName(Last(w.artifact.src))
         && (forall i :: |PublicDir| <= i < |w.artifact.src| - 1 ==> !Contains(w.artifact.src[i], KeepPngMarker))
         && (forall i :: |PublicDir| <= i < |w.artifact.src| ==> UrlSafe(w.artifact.src[i]))
      {
        PlannedEncodeAgrees(v, es, w, width, quality);
      }
    }
  }

  // ---- the three conditions are needed ----

  lemma PlanOfOneFileBelow(v: Variant, dir: Path, d: string, name: string)
    ensures Plan(v, dir, [Dir(d, Listed([File(name)]))]) == PlanFile(v, dir + [d], name)
  {
    var inner := [File(name)];
    assert Plan(v, dir + [d], inner) == PlanFile(v, dir + [d], name) + Plan(v, dir + [d], inner[1..]);
    assert inner[1..] == [];
    var outer := [Dir(d, Listed(inner))];
    assert Plan(v, dir, outer) == PlanEntry(v, dir, outer[0]) + Plan(v, dir, outer[1..]);
    assert outer[1..] == [];
  }

  /** `x.png` is converted: its extension is `.png`, its base name `x` lacks `.keep`. */
  lemma PlainPngName()
    ensures Ext("x.png") == ".png" && NameWithoutExt("x.png") == "x" && Classify("x.png") == Convertible
  {
    ExtNameOf("x", "png");
    PlainPngPieces();
    NoKeepWithoutK("x");
  }

  /** The literal facts about the name `x.png`. */
  lemma PlainPngPieces()
    ensures "x" + "." + "png" == "x.png" && ToLower(".png") == ".png"
    ensures "x.png"[1..] == ".png" && EndsWith("x.png", ".png")
  {
  }

  /** The transcoder plans to encode `x.png` to `x.webp` in the output directory. */
  lemma PlainPngPlanned(v: Variant, dir: Path)
    ensures PlanFile(v, dir, "x.png") == [Write(OutDir(dir) + ["x.webp"], Encoded(dir + ["x.png"], OptionsFor(v, ".png")))]
  {
    PlainPngName();
    ConvertiblePlanned(v, dir, "x.png", "x", ".png");
    assert "x" + ".webp" == "x.webp";
  }

  /** A string without a `k` cannot hold `.keep`. */
  lemma NoKeepWithoutK(s: string)
    requires 'k' !in s
    ensures !Contains(s, KeepPngMarker)
  {
    if Contains(s, KeepPngMarker) {
      ContainsHasChars(s, KeepPngMarker, 1);
    }
  }

  /** The output directory of `public/a.keep` is `dist/a.keep`. */
  lemma KeepDirOut()
    ensures OutDir(PublicDir + ["a.keep"]) == DistDir + ["a.keep"]
  {
    var dir := PublicDir + ["a.keep"];
    assert InPublic(dir) by {
      assert dir[..|PublicDir|] == PublicDir;
    }
    OutDirMirrors(dir);
    assert dir[|PublicDir|..] == ["a.keep"];
  }

  /**
   * A `.keep` in a directory name is not seen by the transcoder, which encodes
   * `public/a.keep/x.png` to `dist/a.keep/x.webp`, but it is seen by the loader,
   * which requests the URL of `dist/a.keep/x.png`, a file the walk does not write.
   */
  lemma KeepInDirectoryName(v: Variant, width: nat, quality: Option<nat>)
    ensures Plan(v, PublicDir, [Dir("a.keep", Listed([File("x.png")]))])
            == [Write(DistDir + ["a.keep", "x.webp"], Encoded(PublicDir + ["a.keep", "x.png"], OptionsFor(v, ".png")))]
    ensures Under(PublicDir, PublicDir + ["a.keep", "x.png"]) && Under(PublicDir, DistDir + ["a.keep", "x.png"])
    ensures Loader.ImageLoader(PublicUrl(PublicDir + ["a.keep", "x.png"]), width, quality)
            == PublicUrl(DistDir + ["a.keep", "x.png"])
  {
    PlanOfOneFileBelow(v, PublicDir, "a.keep", "x.png");
    PlainPngPlanned(v, PublicDir + ["a.keep"]);
    KeepDirOut();
    Regroup2(DistDir, "a.keep", "x.webp");
    Regroup2(PublicDir, "a.keep", "x.png");
    KeepDirLoader(width, quality);
  }

  /** Appending two segments one by one or together. */
  lemma Regroup2(p: Path, a: string, b: string)
    ensures p + [a] + [b] == p + [a, b]
  {
  }

  /** The loader keeps `/a.keep/x.png` and requests it under `/dist/` unchanged. */
  lemma KeepDirLoader(width: nat, quality: Option<nat>)
    ensures Under(PublicDir, PublicDir + ["a.keep", "x.png"]) && Under(PublicDir, DistDir + ["a.keep", "x.png"])
    ensures Loader.ImageLoader(PublicUrl(PublicDir + ["a.keep", "x.png"]), width, quality)
            == PublicUrl(DistDir + ["a.keep", "x.png"])
  {
    var rel := ["a.keep", "x.png"];
    DistIsPublicDist();
    BelowPublic(rel);
    BelowPublic(["dist"] + rel);
    assert DistDir + rel == PublicDir + (["dist"] + rel);
    assert NormalPath(rel);
    JoinRel(["a.keep"], "x.png");
    assert rel == ["a.keep"] + ["x.png"];
    KeepDirIsKeep();
    KeepJoinedUrl(rel, width, quality);
  }

  /** A path made by appending segments to `public/` lies below it. */
  lemma BelowPublic(rel: seq<string>)
    ensures Under(PublicDir, PublicDir + rel) && (PublicDir + rel)[|PublicDir|..] == rel
  {
  }

  /** The loader sees `.keep` in the directory of `a.keep/x.png`. */
  lemma KeepDirIsKeep()
    ensures Loader.IsKeepPng(Lead(["a.keep"]) + "x.png")
  {
    assert JoinWith('/', ["a.keep"]) == "a.keep";
    assert OccursAt("a.keep/", KeepPngMarker, 1);
    MarkerInLead("a.keep/", "x", "png");
    assert "a.keep/" == Lead(["a.keep"]);
    assert "x" + "." + "png" == "x.png";
  }

  /** `.keep` in the directories and a final `png` piece make a path the loader keeps. */
  lemma MarkerInLead(lead: string, stem: string, x: string)
    requires Contains(lead, KeepPngMarker) && '.' !in x && ToLower(x) == "png"
    ensures Loader.IsKeepPng(lead + (stem + "." + x))
  {
    Regroup4(lead, stem, ".", x);
    Loader.LastDotPieceOf(lead + stem, x);
    ContainsInContext("", lead, stem + "." + x, KeepPngMarker);
    assert "" + lead + (stem + "." + x) == lead + (stem + "." + x);
  }

  /**
   * The transcoder strips only a lower-case extension, the loader any: the
   * transcoder encodes `public/Photo.PNG` to `dist/Photo.PNG.webp`, and the loader
   * requests the URL of `dist/Photo.webp`.
   */
  lemma UpperCaseExtension(v: Variant, width: nat, quality: Option<nat>)
    ensures PlanFile(v, PublicDir, "Photo.PNG")
            == [Write(DistDir + ["Photo.PNG.webp"], Encoded(PublicDir + ["Photo.PNG"], OptionsFor(v, ".png")))]
    ensures Under(PublicDir, PublicDir + ["Photo.PNG"]) && Under(PublicDir, DistDir + ["Photo.webp"])
    ensures Loader.SplitUrl(Loader.ImageLoader(PublicUrl(PublicDir + ["Photo.PNG"]), width, quality)).0
            == PublicUrl(DistDir + ["Photo.webp"])
  {
    PhotoPlanned(v, PublicDir);
    PublicIsPublic();
    OutDirMirrors(PublicDir);
    assert PublicDir[|PublicDir|..] == [];
    PhotoLoader(width, quality);
  }

  /**
   * A `?` in a file name is written into the URL as it is: the transcoder encodes
   * `public/a?.png` to `dist/a?.webp`, but a URL parser reads the loader's URL for
   * it as the path `/dist/a`, a file the walk does not write.
   */
  lemma ReservedCharInName(v: Variant, width: nat, quality: Option<nat>)
    ensures PlanFile(v, PublicDir, "a?.png")
            == [Write(DistDir + ["a?.webp"], Encoded(PublicDir + ["a?.png"], OptionsFor(v, ".png")))]
    ensures Under(PublicDir, PublicDir + ["a?.png"]) && Under(PublicDir, DistDir + ["a?.webp"])
    ensures PublicUrl(DistDir + ["a?.webp"]) == "/dist/a?.webp"
    ensures Loader.SplitUrl(Loader.ImageLoader(PublicUrl(PublicDir + ["a?.png"]), width, quality)).0 == "/dist/a"
  {
    QueryCharPlanned(v);
    QueryCharUrls();
    QueryCharLoader(width, quality);
  }

  /** The transcoder plans to encode `public/a?.png` to `dist/a?.webp`. */
  lemma QueryCharPlanned(v: Variant)
    ensures PlanFile(v, PublicDir, "a?.png")
            == [Write(DistDir + ["a?.webp"], Encoded(PublicDir + ["a?.png"], OptionsFor(v, ".png")))]
  {
    QueryCharName();
    ConvertiblePlanned(v, PublicDir, "a?.png", "a?", ".png");
    QueryCharPieces();
    PublicOutDir();
  }

  /** The files directly in `public/` go directly into `dist/`. */
  lemma PublicOutDir()
    ensures OutDir(PublicDir) == DistDir
  {
    PublicIsPublic();
    OutDirMirrors(PublicDir);
    assert PublicDir[|PublicDir|..] == [];
    assert DistDir + [] == DistDir;
  }

  /** The literal facts about the name `a?.png`. */
  lemma QueryCharPieces()
    ensures "a?" + "." + "png" == "a?.png" && "a?" + ".webp" == "a?.webp" && ToLower(".png") == ".png"
    ensures "a?.png"[2..] == ".png" && EndsWith("a?.png", ".png") && 'k' !in "a?.png"
    ensures "/a?.png" == "/" + "a?.png" && "a?.png"[0] == 'a'
    ensures '?' !in "/dist/a" && '#' !in "/dist/a"
  {
  }

  /** `a?.png` has the extension `.png`, the base name `a?`, and is converted. */
  lemma QueryCharName()
    ensures Ext("a?.png") == ".png" && NameWithoutExt("a?.png") == "a?" && Classify("a?.png") == Convertible
  {
    ExtNameOf("a?", "png");
    QueryCharPieces();
    NoKeepWithoutK("a?");
  }

  /** The references of `public/a?.png` and `dist/a?.webp`. */
  lemma QueryCharUrls()
    ensures Under(PublicDir, PublicDir + ["a?.png"]) && Under(PublicDir, DistDir + ["a?.webp"])
    ensures PublicUrl(PublicDir + ["a?.png"]) == "/a?.png"
    ensures PublicUrl(DistDir + ["a?.webp"]) == "/dist/a?.webp"
  {
    DistIsPublicDist();
    BelowPublic(["a?.png"]);
    BelowPublic(["dist"] + ["a?.webp"]);
    assert DistDir + ["a?.webp"] == PublicDir + (["dist"] + ["a?.webp"]);
    OnePart("a?.png");
    OnePart("a?.webp");
    DistUrl(["a?.webp"]);
    QueryCharText();
  }

  /** The literal texts of those references. */
  lemma QueryCharText()
    ensures "/" + "a?.png" == "/a?.png" && "/dist/" + "a?.webp" == "/dist/a?.webp"
  {
  }

  /** The loader's URL for `/a?.png` has the path `/dist/a` as a URL parser reads it. */
  lemma QueryCharLoader(width: nat, quality: Option<nat>)
    ensures Loader.SplitUrl(Loader.ImageLoader("/a?.png", width, quality)).0 == "/dist/a"
  {
    var j := JoinWith('&', Loader.Params(width, quality));
    QueryCharPieces();
    Loader.PrefixedIsLocal("a?.png");
    Loader.PlainPath("a?", "png");
    Loader.WebpCase("/a?.png", width, quality);
    QueryCharRegroup(j);
    Loader.PathBeforeQuery("/dist/a", ".webp?" + j);
  }

  /** The loader's URL for `/a?.png` regrouped at its first `?`. */
  lemma QueryCharRegroup(j: string)
    ensures "/dist/" + "a?" + ".webp" + "?" + j == "/dist/a" + "?" + (".webp?" + j)
  {
  }

  /** `Photo.PNG` has the extension `.png`, keeps its whole name as base name, and is converted. */
  lemma PhotoName()
    ensures Ext("Photo.PNG") == ".png" && NameWithoutExt("Photo.PNG") == "Photo.PNG"
    ensures Classify("Photo.PNG") == Convertible
  {
    PhotoExt();
    PhotoBase();
    PhotoHasNoK();
    NoKeepWithoutK("Photo.PNG");
  }

  /** The name `Photo.PNG` has no `k`. */
  lemma PhotoHasNoK()
    ensures 'k' !in "Photo.PNG"
  {
  }

  /** The lower-cased extension of `Photo.PNG` is `.png`. */
  lemma PhotoExt()
    ensures Ext("Photo.PNG") == ".png"
  {
    ExtNameOf("Photo", "PNG");
    assert "Photo" + "." + "PNG" == "Photo.PNG";
    UpperPng();
  }

  /** Lower-casing `.PNG` gives `.png`. */
  lemma UpperPng()
    ensures ToLower(".PNG") == ".png"
  {
  }

  /** `basename` with `.png` leaves `Photo.PNG` alone: it does not end with `.png`. */
  lemma PhotoBase()
    ensures BaseName("Photo.PNG", ".png") == "Photo.PNG"
  {
    assert "Photo.PNG"[5..] != ".png" by {
      assert "Photo.PNG"[6] == 'P';
    }
  }

  /** The transcoder plans to encode `Photo.PNG` to `Photo.PNG.webp`. */
  lemma PhotoPlanned(v: Variant, dir: Path)
    ensures PlanFile(v, dir, "Photo.PNG")
            == [Write(OutDir(dir) + ["Photo.PNG.webp"], Encoded(dir + ["Photo.PNG"], OptionsFor(v, ".png")))]
  {
    PhotoName();
    ConvertiblePlanned(v, dir, "Photo.PNG", "Photo.PNG", ".png");
    PhotoWebpName();
  }

  /** The literal text of the name `Photo.PNG.webp`. */
  lemma PhotoWebpName()
    ensures "Photo.PNG" + ".webp" == "Photo.PNG.webp"
  {
  }

  /** The write planned for a converted file, from the pieces of its name. */
  lemma ConvertiblePlanned(v: Variant, dir: Path, name: string, stem: string, ext: string)
    requires Classify(name) == Convertible && NameWithoutExt(name) == stem && Ext(name) == ext
    ensures PlanFile(v, dir, name) == [Write(OutDir(dir) + [stem + ".webp"], Encoded(dir + [name], OptionsFor(v, ext)))]
  {
  }

  /** The loader requests `/Photo.PNG` at the path `/dist/Photo.webp`. */
  lemma PhotoLoader(width: nat, quality: Option<nat>)
    ensures Under(PublicDir, PublicDir + ["Photo.PNG"]) && Under(PublicDir, DistDir + ["Photo.webp"])
    ensures Loader.SplitUrl(Loader.ImageLoader(PublicUrl(PublicDir + ["Photo.PNG"]), width, quality)).0
            == PublicUrl(DistDir + ["Photo.webp"])
  {
    var rel := ["Photo.PNG"];
    var target := ["Photo.webp"];
    DistIsPublicDist();
    BelowPublic(rel);
    BelowPublic(["dist"] + target);
    assert DistDir + target == PublicDir + (["dist"] + target);
    PhotoPaths();
    WebpJoinedUrl(rel, target, width, quality);
  }

  /** The facts the loader needs about the one-segment path `Photo.PNG`. */
  lemma PhotoPaths()
    ensures NormalPath(["Photo.PNG"]) && UrlSafe(["Photo.PNG"][0])
    ensures !Loader.IsKeepPng(JoinWith('/', ["Photo.PNG"]))
    ensures Loader.StripExtension(JoinWith('/', ["Photo.PNG"])) + ".webp" == JoinWith('/', ["Photo.webp"])
  {
    OnePart("Photo.PNG");
    OnePart("Photo.webp");
    PhotoHasNoK();
    NoKeepWithoutK("Photo.PNG");
    PhotoStripped();
  }

  /** Joining one segment gives the segment. */
  lemma OnePart(a: string)
    ensures JoinWith('/', [a]) == a
  {
  }

  /** The loader strips `.PNG` from `Photo.PNG`. */
  lemma PhotoStripped()
    ensures Loader.StripExtension("Photo.PNG") + ".webp" == "Photo.webp"
  {
    Loader.StripExtensionOf("Photo", "PNG");
    assert "Photo" + "." + "PNG" == "Photo.PNG";
    assert "Photo" + ".webp" == "Photo.webp";
  }
}
