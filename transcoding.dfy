/**
 * The build-time image transcoder of src/lib/optimize-images.ts (and of its
 * older inline copy scripts/optimize-images.js) as functions on values: the
 * input directory tree, the output filesystem, the per-file decision and the
 * depth-first walk. The methods that change an `OutputFs` step by step are
 * proved against these functions.
 */
module Transcoding {
  import opened Wrappers
  import opened Strings
  import opened NodePath

  /** `process.cwd()` is a fixed directory; `/app` stands for it. */
  const Cwd: Path := ["app"]
  /** `join(process.cwd(), 'public')` */
  const PublicDir: Path := Cwd + ["public"]
  /** `join(process.cwd(), 'public/dist')` */
  const DistDir: Path := Cwd + ["public", "dist"]
  /** `IMAGE_EXTENSIONS.includes(ext)`: the array holds `.jpg`, `.jpeg`, `.webp` and `.png`. */
  predicate IsImageExtension(ext: string) {
    ext == ".jpg" || ext == ".jpeg" || ext == ".webp" || ext == ".png"
  }
  const KeepPngMarker := ".keep"

  // ---- the input tree ----

  /** What `readdir(dir, { withFileTypes: true })` returns for one directory, or its failure. */
  datatype Listing = Listed(entries: seq<Entry>) | ReadFailed

  /** A directory entry; a sub-directory carries the listing it will return when read. */
  datatype Entry = File(name: string) | Dir(name: string, listing: Listing)

  /** Every name in the tree is one `readdir` can return. */
  predicate WellFormed(es: seq<Entry>)
    decreases es
  {
    forall i :: 0 <= i < |es| ==>
      ValidName(es[i].name)
      && (es[i].Dir? && es[i].listing.Listed? ==> WellFormed(es[i].listing.entries))
  }

  /** No directory of the tree fails to be read. */
  predicate Readable(es: seq<Entry>)
    decreases es
  {
    forall i :: 0 <= i < |es| ==>
      es[i].Dir? ==> es[i].listing.Listed? && Readable(es[i].listing.entries)
  }

  // ---- the output filesystem and the outside world ----

  datatype WebpOptions = WebpOptions(quality: nat, lossless: Option<bool>, nearLossless: Option<bool>)

  /** What a file under `dist` holds: a verbatim copy, or the encoding of a source with given options. */
  datatype Artifact = Copied(src: Path) | Encoded(src: Path, options: WebpOptions)

  /** The files written so far and the directories that exist. */
  datatype Fs = Fs(files: map<Path, Artifact>, dirs: set<Path>)

  /**
   * Which calls into `fs` and `sharp` fail: `image.metadata()` on a corrupt
   * file, `toFile` on a file the encoder rejects, `copyFile` and `mkdir`.
   */
  datatype Oracle = Oracle(corrupt: set<Path>, encodeFails: set<Path>, copyFails: set<Path>, mkdirFails: set<Path>)

  /** The library (with its `NODE_ENV === 'test'` flag) or the older script. */
  datatype Variant = Library(testMode: bool) | Script

  datatype Fault = ReadDirFailed(dir: Path) | MkdirFailed(dir: Path) | CopyFailed(src: Path)

  /** How a call ends: normally, with an exception, or with `process.exit(code)`. */
  datatype Outcome = Completed | Threw(fault: Fault) | Exited(code: int)

  /** The state after a step, the files handed to `sharp` during it, and how it ended. */
  datatype Step = Step(fs: Fs, calls: seq<Path>, outcome: Outcome)

  datatype DirStep = DirStep(fs: Fs, fault: Option<Fault>)

  // ---- directories ----

  /** `d` and all its ancestors, as `mkdir(d, { recursive: true })` creates them. */
  function Prefixes(d: Path): set<Path> {
    set k | 0 <= k <= |d| :: d[..k]
  }

  /** `ensureDirectoryExists(d)`: nothing when `fs.access` finds it, else a recursive `mkdir`. */
  function EnsureDir(fs: Fs, oracle: Oracle, d: Path): (r: DirStep)
    ensures r.fs.files == fs.files && fs.dirs <= r.fs.dirs
    ensures r.fault.None? <==> d in r.fs.dirs
    ensures r.fault.Some? ==> r.fs == fs && r.fault == Some(MkdirFailed(d))
    ensures forall p :: p in r.fs.dirs ==> p in fs.dirs || p in Prefixes(d)
  {
    if d in fs.dirs then DirStep(fs, None)
    else if d in oracle.mkdirFails then DirStep(fs, Some(MkdirFailed(d)))
    else
      assert d == d[..|d|];
      DirStep(fs.(dirs := fs.dirs + Prefixes(d)), None)
  }

  /**
   * `cleanDistDirectory()`: `rm(DIST_DIR, { recursive: true, force: true })`
   * removes everything under `dist`; when `rm` fails the error is logged and
   * nothing changes.
   */
  function Clean(fs: Fs, rmFails: bool): Fs {
    if rmFails then fs
    else Fs(map p | p in fs.files && !Under(DistDir, p) :: fs.files[p],
            set d | d in fs.dirs && !Under(DistDir, d))
  }

  /** The catch block of `optimizeImages`: rethrow in test mode, `process.exit(1)` otherwise. */
  function Catch(v: Variant, o: Outcome): Outcome {
    match o
    case Threw(_) => if v == Library(true) then o else Exited(1)
    case _ => o
  }

  // ---- names ----

  /** `extname(name).toLowerCase()` */
  function Ext(name: string): string {
    ToLower(ExtName(name))
  }

  /** `basename(name, ext)` with the lower-cased extension. */
  function NameWithoutExt(name: string): string {
    BaseName(name, Ext(name))
  }

  datatype Kind = NonImage | AlreadyWebp | KeepPng | Convertible

  /** The decision `processFile` takes for a file, in the order of its tests. */
  function Classify(name: string): Kind {
    var ext := Ext(name);
    if !IsImageExtension(ext) then NonImage
    else if ext == ".webp" then AlreadyWebp
    else if ext == ".png" && Contains(NameWithoutExt(name), KeepPngMarker) then KeepPng
    else Convertible
  }

  /**
   * The options passed to `image.webp`: the library spreads
   * `{ lossless: true, nearLossless: true }` in for PNGs only, the script always
   * sets both to `ext === '.png'`.
   */
  function OptionsFor(v: Variant, ext: string): WebpOptions {
    match v
    case Library(_) =>
      if ext == ".png" then WebpOptions(80, Some(true), Some(true)) else WebpOptions(80, None, None)
    case Script => WebpOptions(80, Some(ext == ".png"), Some(ext == ".png"))
  }

  /** `join(DIST_DIR, relative(PUBLIC_DIR, dir))` */
  function OutDir(dir: Path): Path {
    Join(DistDir, Relative(PublicDir, dir))
  }

  // ---- one file ----

  /** `copyPngFile`: both a failing `mkdir` and a failing `copyFile` escape it. */
  function CopyPngFile(fs: Fs, oracle: Oracle, dir: Path, fileName: string, fullPath: Path): (r: Step)
    ensures r.calls == []
  {
    var distDir := OutDir(dir);
    var e := EnsureDir(fs, oracle, distDir);
    if e.fault.Some? then Step(fs, [], Threw(e.fault.value))
    else if fullPath in oracle.copyFails then Step(e.fs, [], Threw(CopyFailed(fullPath)))
    else Step(e.fs.(files := e.fs.files[distDir + [fileName] := Copied(fullPath)]), [], Completed)
  }

  /**
   * `convertToWebP`: the file always reaches `sharp`; a corrupt file, a failing
   * `mkdir` or a failing encode is caught and the file is skipped (a directory
   * made before the encode fails stays made).
   */
  function ConvertToWebp(v: Variant, fs: Fs, oracle: Oracle, dir: Path, fullPath: Path,
                         nameWithoutExt: string, ext: string): (r: Step)
    ensures r.calls == [fullPath] && r.outcome == Completed
  {
    if fullPath in oracle.corrupt then Step(fs, [fullPath], Completed)
    else
      var distDir := OutDir(dir);
      var e := EnsureDir(fs, oracle, distDir);
      if e.fault.Some? then Step(fs, [fullPath], Completed)
      else if fullPath in oracle.encodeFails then Step(e.fs, [fullPath], Completed)
      else
        var webpPath := distDir + [nameWithoutExt + ".webp"];
        Step(e.fs.(files := e.fs.files[webpPath := Encoded(fullPath, OptionsFor(v, ext))]), [fullPath], Completed)
  }

  /** `processFile` for a file entry named `name` in `dir`. */
  function ProcessFile(v: Variant, fs: Fs, oracle: Oracle, dir: Path, name: string): Step {
    match Classify(name)
    case NonImage => Step(fs, [], Completed)
    case AlreadyWebp => Step(fs, [], Completed)
    case KeepPng => CopyPngFile(fs, oracle, dir, name, dir + [name])
    case Convertible => ConvertToWebp(v, fs, oracle, dir, dir + [name], NameWithoutExt(name), Ext(name))
  }

  // ---- the walk ----

  /** `optimizeImages(dir)` over the listing `readdir` gives for `dir`. */
  function Walk(v: Variant, oracle: Oracle, dir: Path, l: Listing, fs: Fs): Step
    decreases l
  {
    match l
    case ReadFailed => Step(fs, [], Catch(v, Threw(ReadDirFailed(dir))))
    case Listed(es) =>
      var r := WalkEntries(v, oracle, dir, es, fs);
      r.(outcome := Catch(v, r.outcome))
  }

  /** The `for … of` loop: entries in order, stopping at the first one that does not complete. */
  function WalkEntries(v: Variant, oracle: Oracle, dir: Path, es: seq<Entry>, fs: Fs): Step
    decreases es
  {
    if |es| == 0 then Step(fs, [], Completed)
    else
      var r := ProcessEntry(v, oracle, dir, es[0], fs);
      if r.outcome != Completed then r
      else
        var rest := WalkEntries(v, oracle, dir, es[1..], r.fs);
        Step(rest.fs, r.calls + rest.calls, rest.outcome)
  }

  /** `processFile(dir, entry)`: directories recurse. */
  function ProcessEntry(v: Variant, oracle: Oracle, dir: Path, e: Entry, fs: Fs): Step
    decreases e
  {
    match e
    case Dir(name, l) => Walk(v, oracle, dir + [name], l, fs)
    case File(name) => ProcessFile(v, fs, oracle, dir, name)
  }

  // ---- the mutable output ----

  /** The output filesystem the transcoder writes, and the files it handed to `sharp`. */
  class OutputFs {
    var files: map<Path, Artifact>
    var dirs: set<Path>
    var encoderCalls: seq<Path>

    function State(): Fs
      reads this
    {
      Fs(files, dirs)
    }

    constructor(fs: Fs)
      ensures State() == fs && encoderCalls == []
    {
      files := fs.files;
      dirs := fs.dirs;
      encoderCalls := [];
    }
  }
}
