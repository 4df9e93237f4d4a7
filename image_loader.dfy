/**
 * The request-time image loader (src/lib/image-loader.ts): a pure function from
 * an image reference, a width and an optional quality to the URL of the file the
 * build-time transcoder leaves under `/dist/`.
 */
module Loader {
  import opened Wrappers
  import opened Strings

  const KeepPngMarker := ".keep"

  /** Absolute (`http…`) and protocol-relative (`//…`) references. */
  predicate IsExternal(src: string) {
    StartsWith(src, "http") || StartsWith(src, "//")
  }

  /** Exactly one leading `/` is dropped. */
  function StripLeadingSlash(src: string): string {
    if StartsWith(src, "/") then src[1..] else src
  }

  /** `p.split('.').pop()`: what follows the last dot, or all of `p` when it has none. */
  function LastDotPiece(p: string): string {
    p[LastIndexOf(p, '.') + 1..]
  }

  /**
   * `p.replace(/\.[^/.]+$/, '')`: the only place the pattern can match is the
   * last dot, and only when it is followed by at least one character and no `/`.
   */
  function StripExtension(p: string): string {
    var d := LastIndexOf(p, '.');
    if d >= 0 && d + 1 < |p| && '/' !in p[d + 1..] then p[..d] else p
  }

  /** The loader's keep rule: the marker anywhere in the path and a final piece `png` in any case. */
  predicate IsKeepPng(srcPath: string) {
    Contains(srcPath, KeepPngMarker) && ToLower(LastDotPiece(srcPath)) == "png"
  }

  /** JavaScript truthiness of `quality`: absent and 0 are both falsy. */
  predicate IsTruthy(quality: Option<nat>) {
    quality.Some? && quality.value != 0
  }

  function Params(width: nat, quality: Option<nat>): seq<string> {
    ["w=" + Decimal(width)] + (if IsTruthy(quality) then ["q=" + Decimal(quality.value)] else [])
  }

  /** The query string built from `params`, or nothing when there are none. */
  function QuerySuffix(params: seq<string>): string {
    if |params| > 0 then "?" + JoinWith('&', params) else ""
  }

  /** `/dist/` plus the path without its final extension plus `.webp`. */
  function WebpPath(srcPath: string): string {
    "/dist/" + StripExtension(srcPath) + ".webp"
  }

  /** The URL of a local reference, once its leading `/` is gone. */
  function LocalUrl(srcPath: string, width: nat, quality: Option<nat>): (url: string)
    ensures StartsWith(url, "/dist/")
  {
    if IsKeepPng(srcPath) then
      assert ("/dist/" + srcPath)[..6] == "/dist/";
      "/dist/" + srcPath
    else
      var url := WebpPath(srcPath) + QuerySuffix(Params(width, quality));
      assert url[..6] == WebpPath(srcPath)[..6] == "/dist/";
      url
  }

  /** `imageLoader({ src, width, quality })`. */
  function ImageLoader(src: string, width: nat, quality: Option<nat>): (url: string)
    ensures IsExternal(src) ==> url == src
    ensures !IsExternal(src) ==> StartsWith(url, "/dist/")
  {
    if IsExternal(src) then src else LocalUrl(StripLeadingSlash(src), width, quality)
  }

  // ---- reading a query string back ----

  /** `key=value`, or the whole part as the key when it has no `=`. */
  function SplitPair(part: string): (string, string) {
    var i := IndexOf(part, '=');
    if i < 0 then (part, "") else (part[..i], part[i + 1..])
  }

  /** The `(key, value)` pairs of a query string, in order. */
  function QueryParameters(query: string): seq<(string, string)> {
    var parts := Split(query, '&');
    seq(|parts|, i requires 0 <= i < |parts| => SplitPair(parts[i]))
  }

  /** A character that ends the path of a URL: the start of its query or of its fragment. */
  predicate EndsPath(c: char) {
    c == '?' || c == '#'
  }

  /** Where the path of a URL ends: at its first `?` or `#`, or at its end. */
  function PathEnd(url: string): (r: nat)
    ensures r <= |url|
    ensures forall k :: 0 <= k < r ==> !EndsPath(url[k])
    ensures r < |url| ==> EndsPath(url[r])
    decreases |url|
  {
    if |url| == 0 || EndsPath(url[0]) then 0
    else
      var r := PathEnd(url[1..]);
      assert forall k :: 1 <= k < r + 1 ==> url[k] == url[1..][k - 1];
      r + 1
  }

  /**
   * The path and the query of a URL as a URL parser reads them: the path runs up
   * to the first `?` or `#`; when that is a `?`, the query runs from after it up
   * to the next `#`.
   */
  function SplitUrl(url: string): (string, string) {
    var i := PathEnd(url);
    if i == |url| || url[i] == '#' then (url[..i], "")
    else
      var rest := url[i + 1..];
      var j := IndexOf(rest, '#');
      (url[..i], if j < 0 then rest else rest[..j])
  }

  // ---- properties ----

  /** `/p` and `p` are the same local reference. */
  lemma LeadingSlashIrrelevant(p: string, width: nat, quality: Option<nat>)
    requires !StartsWith(p, "/") && !StartsWith(p, "http")
    ensures ImageLoader("/" + p, width, quality) == ImageLoader(p, width, quality)
  {
    var s := "/" + p;
    assert s[..1] == "/" && s[1..] == p;
    assert |p| >= 2 ==> p[..2][..1] == p[..1];
    assert |p| > 0 ==> s[..2] == "/" + p[..1];
    assert !IsExternal(s) && !IsExternal(p);
    assert ImageLoader(s, width, quality) == LocalUrl(p, width, quality);
  }

  /** The regex removes a final `.ext` and nothing else; otherwise it leaves the path alone. */
  lemma StripExtensionSpec(p: string)
    ensures var r := StripExtension(p); var piece := LastDotPiece(p);
            || (r + "." + piece == p && |piece| > 0 && '/' !in piece && '.' !in piece)
            || (r == p && ('.' !in p || |piece| == 0 || '/' in piece))
  {
    var d := LastIndexOf(p, '.');
    if d >= 0 {
      assert p[..d] + "." + p[d + 1..] == p;
    }
  }

  /** The last dot-piece of `q.x`, where `x` has no dot, is `x`. */
  lemma LastDotPieceOf(q: string, x: string)
    requires '.' !in x
    ensures LastDotPiece(q + "." + x) == x
  {
    var p := q + "." + x;
    assert p[|q|] == '.' && p[|q| + 1..] == x;
    LastIndexOfIs(p, '.', |q|);
  }

  /** The regex strips exactly a final `.x` when `x` is non-empty and has neither `.` nor `/`. */
  lemma StripExtensionOf(q: string, x: string)
    requires '.' !in x && '/' !in x && |x| > 0
    ensures StripExtension(q + "." + x) == q
  {
    var p := q + "." + x;
    assert p[|q|] == '.' && p[|q| + 1..] == x && p[..|q|] == q;
    LastIndexOfIs(p, '.', |q|);
  }

  /** Keep-marked PNG references are served under their own name, extension and all, with no query. */
  lemma KeepPngUrl(src: string, width: nat, quality: Option<nat>)
    requires !IsExternal(src) && IsKeepPng(StripLeadingSlash(src))
    ensures var url := ImageLoader(src, width, quality);
            && url == "/dist/" + StripLeadingSlash(src)
            && LastDotPiece(url) == LastDotPiece(StripLeadingSlash(src))
            && ('?' !in src ==> '?' !in url)
  {
    var srcPath := StripLeadingSlash(src);
    assert ImageLoader(src, width, quality) == "/dist/" + srcPath;
    ContainsHasChars(srcPath, KeepPngMarker, 0);
    PieceAfterPrefix("/dist/", srcPath);
    assert '?' !in src ==> '?' !in srcPath;
  }

  /** A prefix does not change what follows the last dot of a string that has one. */
  lemma PieceAfterPrefix(a: string, p: string)
    requires '.' in p
    ensures LastDotPiece(a + p) == LastDotPiece(p)
  {
    LastIndexOfAppend(a, p, '.');
    assert (a + p)[|a| + LastIndexOf(p, '.') + 1..] == p[LastIndexOf(p, '.') + 1..];
  }

  /** Decimal digits hold no other character. */
  lemma DecimalHasNo(c: char, n: nat)
    requires !IsDigit(c)
    ensures c !in Decimal(n)
  {
  }

  /** Parameters are `key=digits`: never a `&`, `=` inside the value, `?` or `#`. */
  lemma ParamsShape(width: nat, quality: Option<nat>)
    ensures forall i :: 0 <= i < |Params(width, quality)| ==> '&' !in Params(width, quality)[i] && '?' !in Params(width, quality)[i]
    ensures '?' !in JoinWith('&', Params(width, quality)) && '#' !in JoinWith('&', Params(width, quality))
  {
    DecimalHasNo('&', width);
    DecimalHasNo('?', width);
    DecimalHasNo('#', width);
    if IsTruthy(quality) {
      DecimalHasNo('&', quality.value);
      DecimalHasNo('?', quality.value);
      DecimalHasNo('#', quality.value);
    }
  }

  /** Dropping the leading `/` removes no other character. */
  lemma SlashlessHasNo(src: string, c: char)
    requires c !in src
    ensures c !in StripLeadingSlash(src)
  {
    if StartsWith(src, "/") {
      assert forall k :: 0 <= k < |src| - 1 ==> src[1..][k] == src[k + 1];
    }
  }

  /** A URL built as a path without `?` or `#`, a `?` and a query without `#` reads back as that path and query. */
  lemma SplitUrlAtQuery(path: string, query: string)
    requires '?' !in path && '#' !in path && '#' !in query
    ensures SplitUrl(path + "?" + query) == (path, query)
  {
    var url := path + "?" + query;
    assert url[|path|] == '?';
    assert forall k :: 0 <= k < |path| ==> url[k] == path[k];
    var i := PathEnd(url);
    assert i == |path|;
    assert url[..|path|] == path && url[|path| + 1..] == query;
  }

  /** Whatever follows it, a `?` after a path without `?` or `#` ends the path. */
  lemma PathBeforeQuery(path: string, rest: string)
    requires '?' !in path && '#' !in path
    ensures SplitUrl(path + "?" + rest).0 == path
  {
    var url := path + "?" + rest;
    assert url[|path|] == '?';
    assert forall k :: 0 <= k < |path| ==> url[k] == path[k];
    assert PathEnd(url) == |path|;
    assert url[..|path|] == path;
  }

  /** A character that is neither in the reference nor in `/dist/` and `.webp` is not in its WebP path. */
  lemma WebpPathHasNo(srcPath: string, c: char)
    requires c !in srcPath && c !in "/dist/" && c !in ".webp"
    ensures c !in WebpPath(srcPath)
  {
    var d := LastIndexOf(srcPath, '.');
    if d >= 0 && d + 1 < |srcPath| && '/' !in srcPath[d + 1..] {
      assert forall k :: 0 <= k < d ==> srcPath[..d][k] == srcPath[k];
    }
  }

  /** `key=digits` reads back as the pair `(key, digits)`. */
  lemma SplitPairOfParam(key: string, n: nat)
    requires '=' !in key
    ensures SplitPair(key + "=" + Decimal(n)) == (key, Decimal(n))
  {
    DecimalHasNo('=', n);
    IndexOfAfter(key, '=', Decimal(n));
    var part := key + "=" + Decimal(n);
    assert part[..|key|] == key && part[|key| + 1..] == Decimal(n);
  }

  /** Joining parts without `&` and reading the query back gives each part's pair, in order. */
  lemma QueryOfJoin(parts: seq<string>)
    requires |parts| > 0
    requires forall i :: 0 <= i < |parts| ==> '&' !in parts[i]
    ensures var q := QueryParameters(JoinWith('&', parts));
            |q| == |parts| && forall i :: 0 <= i < |parts| ==> q[i] == SplitPair(parts[i])
  {
    SplitJoin('&', parts);
  }

  /** The query the loader builds reads back as `w` and, when quality is truthy, `q`. */
  lemma ParamsReadBack(width: nat, quality: Option<nat>)
    ensures QueryParameters(JoinWith('&', Params(width, quality)))
            == [("w", Decimal(width))] + (if IsTruthy(quality) then [("q", Decimal(quality.value))] else [])
  {
    var w := "w=" + Decimal(width);
    DecimalHasNo('&', width);
    assert "w" + "=" == "w=" && "q" + "=" == "q=";
    SplitPairOfParam("w", width);
    if IsTruthy(quality) {
      var q := "q=" + Decimal(quality.value);
      DecimalHasNo('&', quality.value);
      SplitPairOfParam("q", quality.value);
      assert Params(width, quality) == [w, q];
      QueryOfTwo(w, q);
    } else {
      assert Params(width, quality) == [w];
      QueryOfOne(w);
    }
  }

  /** A one-parameter query reads back as its pair. */
  lemma QueryOfOne(a: string)
    requires '&' !in a
    ensures QueryParameters(JoinWith('&', [a])) == [SplitPair(a)]
  {
    QueryOfJoin([a]);
  }

  /** A two-parameter query reads back as its two pairs, in order. */
  lemma QueryOfTwo(a: string, b: string)
    requires '&' !in a && '&' !in b
    ensures QueryParameters(JoinWith('&', [a, b])) == [SplitPair(a), SplitPair(b)]
  {
    QueryOfJoin([a, b]);
  }

  /**
   * Every other local reference is served as WebP: the path is `/dist/` plus the
   * reference without its final extension plus `.webp`, and the query holds
   * `w=<width>` and, exactly when quality is truthy, `q=<quality>`, nothing else.
   */
  lemma WebpUrl(src: string, width: nat, quality: Option<nat>)
    requires !IsExternal(src) && !IsKeepPng(StripLeadingSlash(src))
    requires '?' !in src && '#' !in src
    ensures SplitUrl(ImageLoader(src, width, quality)).0 == WebpPath(StripLeadingSlash(src))
    ensures QueryParameters(SplitUrl(ImageLoader(src, width, quality)).1)
            == [("w", Decimal(width))] + (if IsTruthy(quality) then [("q", Decimal(quality.value))] else [])
  {
    var path := WebpPath(StripLeadingSlash(src));
    WebpCase(src, width, quality);
    SlashlessHasNo(src, '?');
    SlashlessHasNo(src, '#');
    WebpPathHasNo(StripLeadingSlash(src), '?');
    WebpPathHasNo(StripLeadingSlash(src), '#');
    WebpUrlParts(ImageLoader(src, width, quality), path, width, quality);
  }

  /** A URL made of a path free of `?` and `#`, `?` and the parameters splits back into them. */
  lemma WebpUrlParts(url: string, path: string, width: nat, quality: Option<nat>)
    requires '?' !in path && '#' !in path
    requires url == path + "?" + JoinWith('&', Params(width, quality))
    ensures SplitUrl(url).0 == path
    ensures QueryParameters(SplitUrl(url).1)
            == [("w", Decimal(width))] + (if IsTruthy(quality) then [("q", Decimal(quality.value))] else [])
  {
    ParamsShape(width, quality);
    SplitUrlAtQuery(path, JoinWith('&', Params(width, quality)));
    ParamsReadBack(width, quality);
  }

  /** The URL of a local reference the loader does not keep: its WebP path, `?` and the parameters. */
  lemma WebpCase(src: string, width: nat, quality: Option<nat>)
    requires !IsExternal(src) && !IsKeepPng(StripLeadingSlash(src))
    ensures ImageLoader(src, width, quality)
            == WebpPath(StripLeadingSlash(src)) + "?" + JoinWith('&', Params(width, quality))
  {
  }

  // ---- the worked examples of src/lib/__tests__/image-loader.test.ts ----

  lemma ExternalExamples()
    ensures ImageLoader("https://example.com/image.png", 800, Some(75)) == "https://example.com/image.png"
    ensures ImageLoader("//example.com/image.png", 800, Some(75)) == "//example.com/image.png"
  {
    assert "https://example.com/image.png"[..4] == "http";
    assert "//example.com/image.png"[..2] == "//";
  }

  /** `/images/test.png` with width 800 and quality 75. */
  lemma PngExample()
    ensures ImageLoader("/images/test.png", 800, Some(75)) == "/dist/images/test.webp?w=800&q=75"
  {
    TestPngIsWebp(Some(75));
    TestPngWebpPath();
    QualityQuery();
    Assemble(ImageLoader("/images/test.png", 800, Some(75)), WebpPath("images/test.png"),
             JoinWith('&', Params(800, Some(75))), "/dist/images/test.webp", "?w=800&q=75");
    QualityUrlText();
  }

  /** `/images/test.png` with width 800 and no quality. */
  lemma NoQualityExample()
    ensures ImageLoader("/images/test.png", 800, None) == "/dist/images/test.webp?w=800"
  {
    TestPngIsWebp(None);
    TestPngWebpPath();
    WidthOnlyQuery();
    Assemble(ImageLoader("/images/test.png", 800, None), WebpPath("images/test.png"),
             JoinWith('&', Params(800, None)), "/dist/images/test.webp", "?w=800");
    WidthOnlyUrlText();
  }

  /** `/images/test.png` is local and not a keep-PNG, so it takes the WebP branch. */
  lemma TestPngIsWebp(quality: Option<nat>)
    ensures ImageLoader("/images/test.png", 800, quality)
            == WebpPath("images/test.png") + "?" + JoinWith('&', Params(800, quality))
  {
    var p := "images/test" + "." + "png";
    TestPathText();
    RootedTestText();
    PrefixedIsLocal(p);
    PlainPath("images/test", "png");
    WebpCase("/" + p, 800, quality);
  }

  /** The WebP path of `images/test.png`. */
  lemma TestPngWebpPath()
    ensures WebpPath("images/test.png") == "/dist/images/test.webp"
  {
    WebpPathOf("images/test", "png");
    TestPathText();
  }

  /** `images/test.jpg`, without a leading `/`, with width 800 and quality 75. */
  lemma JpgWithoutSlashExample()
    ensures ImageLoader("images/test.jpg", 800, Some(75)) == "/dist/images/test.webp?w=800&q=75"
  {
    TestJpgIsWebp();
    TestJpgWebpPath();
    QualityQuery();
    Assemble(ImageLoader("images/test.jpg", 800, Some(75)), WebpPath("images/test.jpg"),
             JoinWith('&', Params(800, Some(75))), "/dist/images/test.webp", "?w=800&q=75");
    QualityUrlText();
  }

  /** `images/test.jpg` is local and not a keep-PNG, so it takes the WebP branch. */
  lemma TestJpgIsWebp()
    ensures ImageLoader("images/test.jpg", 800, Some(75))
            == WebpPath("images/test.jpg") + "?" + JoinWith('&', Params(800, Some(75)))
  {
    var p := "images/test" + "." + "jpg";
    assert "images/test.jpg" == p;
    UnrootedIsLocal(p);
    PlainPath("images/test", "jpg");
    WebpCase(p, 800, Some(75));
  }

  /** The WebP path of `images/test.jpg`. */
  lemma TestJpgWebpPath()
    ensures WebpPath("images/test.jpg") == "/dist/images/test.webp"
  {
    WebpPathOf("images/test", "jpg");
    TestPathText();
  }

  /** `/images/test.keep.png` is served as it is. */
  lemma KeepPngExample()
    ensures ImageLoader("/images/test.keep.png", 800, Some(75)) == "/dist/images/test.keep.png"
  {
    KeepExampleFacts();
    KeepLocalUrl();
  }

  /** The local URL of `images/test.keep.png`. */
  lemma KeepLocalUrl()
    ensures LocalUrl("images/test.keep.png", 800, Some(75)) == "/dist/images/test.keep.png"
  {
    TestKeepPath();
    KeptVerbatim("images/test.keep.png", 800, Some(75));
    KeepUrlText();
  }

  /** A path the loader keeps becomes `/dist/` plus the path. */
  lemma KeptVerbatim(srcPath: string, width: nat, quality: Option<nat>)
    requires IsKeepPng(srcPath)
    ensures LocalUrl(srcPath, width, quality) == "/dist/" + srcPath
  {
  }

  /** The literal text of the kept example's URL. */
  lemma KeepUrlText()
    ensures "/dist/" + "images/test.keep.png" == "/dist/images/test.keep.png"
  {
  }

  /** `/images/test.keep.png` is local, loses its `/`, and is a keep-PNG. */
  lemma KeepExampleFacts()
    ensures !IsExternal("/images/test.keep.png")
    ensures StripLeadingSlash("/images/test.keep.png") == "images/test.keep.png"
    ensures IsKeepPng("images/test.keep.png")
  {
    TestKeepPath();
    RootedIsLocal("/images/test.keep.png");
    assert "/images/test.keep.png"[1..] == "images/test.keep.png";
  }

  /** `images/test.keep.png` holds `.keep` and ends in the piece `png`. */
  lemma TestKeepPath()
    ensures IsKeepPng("images/test.keep.png")
  {
    var p := "images/test.keep.png";
    assert p[11..16] == KeepPngMarker;
    assert OccursAt(p, KeepPngMarker, 11);
    LastIndexOfIs(p, '.', 16);
    assert LastDotPiece(p) == "png";
  }

  /** The facts the examples need about a path `stem.x` without a `k`. */
  lemma PlainPath(stem: string, x: string)
    requires 'k' !in stem + "." + x && '.' !in x && '/' !in x && |x| > 0
    ensures !IsKeepPng(stem + "." + x)
    ensures WebpPath(stem + "." + x) == "/dist/" + stem + ".webp"
  {
    NotKeep(stem + "." + x);
    WebpPathOf(stem, x);
  }

  /** A final extension without `/` is what the WebP path replaces. */
  lemma WebpPathOf(stem: string, x: string)
    requires '.' !in x && '/' !in x && |x| > 0
    ensures WebpPath(stem + "." + x) == "/dist/" + stem + ".webp"
  {
    var p := stem + "." + x;
    assert p[|stem|] == '.' && p[|stem| + 1..] == x && p[..|stem|] == stem;
    LastIndexOfIs(p, '.', |stem|);
  }

  /** The literal texts of the example paths. */
  lemma TestPathText()
    ensures "images/test" + "." + "png" == "images/test.png" && "images/test" + "." + "jpg" == "images/test.jpg"
    ensures "/dist/" + "images/test" + ".webp" == "/dist/images/test.webp"
  {
  }

  /** A reference starting with a single `/` is local. */
  lemma RootedIsLocal(src: string)
    requires |src| >= 2 && src[0] == '/' && src[1] != '/'
    ensures !IsExternal(src) && StripLeadingSlash(src) == src[1..]
  {
    assert |src| >= 4 ==> src[..4][0] == '/';
    assert src[..2][1] == src[1];
    assert src[..1] == "/";
  }

  /** One `/` in front of a path that does not start with `/` makes a local reference. */
  lemma PrefixedIsLocal(p: string)
    requires |p| > 0 && p[0] != '/'
    ensures !IsExternal("/" + p) && StripLeadingSlash("/" + p) == p
  {
    RootedIsLocal("/" + p);
    assert ("/" + p)[1..] == p;
  }

  /** The literal text of `/images/test.png`. */
  lemma RootedTestText()
    ensures "/images/test.png" == "/" + "images/test.png" && "images/test.png"[0] == 'i'
  {
  }

  /** A reference starting with neither `/` nor `h` is local and kept as it is. */
  lemma UnrootedIsLocal(src: string)
    requires |src| > 0 && src[0] != '/' && src[0] != 'h'
    ensures !IsExternal(src) && StripLeadingSlash(src) == src
  {
    assert |src| >= 4 ==> src[..4][0] == src[0];
    assert |src| >= 2 ==> src[..2][0] == src[0];
    assert src[..1][0] == src[0];
  }

  /** A path without a `k` cannot hold the marker. */
  lemma NotKeep(p: string)
    requires 'k' !in p
    ensures !IsKeepPng(p)
  {
    if Contains(p, KeepPngMarker) {
      ContainsHasChars(p, KeepPngMarker, 1);
    }
  }

  /** A URL built as path, `?` and query is the path followed by the `?query` text. */
  lemma Assemble(url: string, a: string, j: string, path: string, query: string)
    requires url == a + "?" + j && a == path && "?" + j == query
    ensures url == path + query
  {
    assert a + "?" + j == a + ("?" + j);
  }

  /** The literal text of the WebP example URL with quality. */
  lemma QualityUrlText()
    ensures "/dist/images/test.webp" + "?w=800&q=75" == "/dist/images/test.webp?w=800&q=75"
  {
  }

  /** The literal text of the WebP example URL without quality. */
  lemma WidthOnlyUrlText()
    ensures "/dist/images/test.webp" + "?w=800" == "/dist/images/test.webp?w=800"
  {
  }

  /** The parameters of the examples, `w=800` and `q=75`. */
  lemma ExampleDecimals()
    ensures "w=" + Decimal(800) == "w=800" && "q=" + Decimal(75) == "q=75"
  {
    assert Decimal(800) == "800" && Decimal(75) == "75";
  }

  /** The query for width 800 and quality 75. */
  lemma QualityQuery()
    ensures "?" + JoinWith('&', Params(800, Some(75))) == "?w=800&q=75"
  {
    ExampleDecimals();
    assert IsTruthy(Some(75));
    assert Params(800, Some(75)) == ["w=800"] + ["q=75"] == ["w=800", "q=75"];
    assert JoinWith('&', ["w=800", "q=75"]) == "w=800" + "&" + "q=75";
  }

  /** The query for width 800 alone. */
  lemma WidthOnlyQuery()
    ensures "?" + JoinWith('&', Params(800, None)) == "?w=800"
  {
    ExampleDecimals();
    assert Params(800, None) == ["w=800"];
  }
}
