/**
 * What the image transcoder promises, stated against an independent reference:
 * the PLAN, the sequence of writes the depth-first walk makes when nothing fails.
 * The walk is related to its plan in three ways: without a fatal error it
 * completes, hands every convertible image to the encoder in `readdir` order and
 * writes exactly the planned artifacts that do not fail; whatever happens it
 * touches nothing the plan does not name; and its outcome follows the
 * test-mode/exit rule. The plan in turn mirrors `public/` into `public/dist/`.
 */
module TranscodingProperties {
  import opened Wrappers
  import opened Strings
  import opened NodePath
  import opened Transcoding

  /** One file written under `dist`. */
  datatype Write = Write(target: Path, artifact: Artifact)

  // ---- the plan ----

  /** The write `processFile` makes for the file `name` in `dir` when nothing fails. */
  function PlanFile(v: Variant, dir: Path, name: string): seq<Write> {
    match Classify(name)
    case NonImage => []
    case AlreadyWebp => []
    case KeepPng => [Write(OutDir(dir) + [name], Copied(dir + [name]))]
    case Convertible =>
      [Write(OutDir(dir) + [NameWithoutExt(name) + ".webp"], Encoded(dir + [name], OptionsFor(v, Ext(name))))]
  }

  /** The writes for the entries of `dir`, in `readdir` order, sub-directories depth first. */
  function Plan(v: Variant, dir: Path, es: seq<Entry>): seq<Write>
    decreases es
  {
    if |es| == 0 then [] else PlanEntry(v, dir, es[0]) + Plan(v, dir, es[1..])
  }

  function PlanEntry(v: Variant, dir: Path, e: Entry): seq<Write>
    decreases e
  {
    match e
    case File(name) => PlanFile(v, dir, name)
    case Dir(name, l) => if l.Listed? then Plan(v, dir + [name], l.entries) else []
  }

  /** The files handed to the encoder by a sequence of writes. */
  function Sources(ws: seq<Write>): seq<Path>
    decreases |ws|
  {
    if |ws| == 0 then []
    else (if ws[0].artifact.Encoded? then [ws[0].artifact.src] else []) + Sources(ws[1..])
  }

  /** The file map after performing the writes in order; a later write to the same path wins. */
  function Apply(files: map<Path, Artifact>, ws: seq<Write>): map<Path, Artifact>
    decreases |ws|
  {
    if |ws| == 0 then files else Apply(files[ws[0].target := ws[0].artifact], ws[1..])
  }

  /** An encode the oracle makes fail: the source is corrupt or the encoder rejects it. */
  predicate EncodeFails(oracle: Oracle, w: Write) {
    w.artifact.Encoded? && (w.artifact.src in oracle.corrupt || w.artifact.src in oracle.encodeFails)
  }

  /** The writes that survive the oracle's per-file encoder failures. */
  function Healthy(ws: seq<Write>, oracle: Oracle): seq<Write>
    decreases |ws|
  {
    if |ws| == 0 then []
    else (if EncodeFails(oracle, ws[0]) then [] else [ws[0]]) + Healthy(ws[1..], oracle)
  }

  /** The directory a write puts its file in. */
  function TargetDir(w: Write): Path {
    if |w.target| == 0 then [] else Parent(w.target)
  }

  /** The directories `mkdir -p` may create for the writes. */
  function PlanDirs(ws: seq<Write>): set<Path>
    decreases |ws|
  {
    if |ws| == 0 then {} else Prefixes(TargetDir(ws[0])) + PlanDirs(ws[1..])
  }

  // ---- the plan over concatenation ----

  lemma {:induction false} SourcesAppend(a: seq<Write>, b: seq<Write>)
    ensures Sources(a + b) == Sources(a) + Sources(b)
    decreases |a|
  {
    if |a| == 0 {
      assert a + b == b;
    } else {
      assert (a + b)[0] == a[0] && (a + b)[1..] == a[1..] + b;
      SourcesAppend(a[1..], b);
    }
  }

  lemma {:induction false} ApplyAppend(files: map<Path, Artifact>, a: seq<Write>, b: seq<Write>)
    ensures Apply(files, a + b) == Apply(Apply(files, a), b)
    decreases |a|
  {
    if |a| == 0 {
      assert a + b == b;
    } else {
      assert (a + b)[0] == a[0] && (a + b)[1..] == a[1..] + b;
      ApplyAppend(files[a[0].target := a[0].artifact], a[1..], b);
    }
  }

  lemma {:induction false} HealthyAppend(a: seq<Write>, b: seq<Write>, oracle: Oracle)
    ensures Healthy(a + b, oracle) == Healthy(a, oracle) + Healthy(b, oracle)
    decreases |a|
  {
    if |a| == 0 {
      assert a + b == b;
    } else {
      assert (a + b)[0] == a[0] && (a + b)[1..] == a[1..] + b;
      HealthyAppend(a[1..], b, oracle);
    }
  }

  lemma {:induction false} PlanDirsAppend(a: seq<Write>, b: seq<Write>)
    ensures PlanDirs(a + b) == PlanDirs(a) + PlanDirs(b)
    decreases |a|
  {
    if |a| == 0 {
      assert a + b == b;
    } else {
      assert (a + b)[0] == a[0] && (a + b)[1..] == a[1..] + b;
      PlanDirsAppend(a[1..], b);
    }
  }

  // ---- one file ----

  /** A file whose extension is not an image one, or is already `.webp`, is left alone and never encoded. */
  lemma SkippedFile(v: Variant, oracle: Oracle, dir: Path, name: string, fs: Fs)
    requires !IsImageExtension(Ext(name)) || Ext(name) == ".webp"
    ensures ProcessFile(v, fs, oracle, dir, name) == Step(fs, [], Completed)
    ensures PlanFile(v, dir, name) == []
  {
  }

  /**
   * A `.png` whose name without extension holds `.keep` never reaches the encoder;
   * it is copied verbatim under its own name into the mirrored directory, or the
   * failing `mkdir`/`copyFile` escapes and no file changes.
   */
  lemma KeepPngCopied(v: Variant, oracle: Oracle, dir: Path, name: string, fs: Fs)
    requires Ext(name) == ".png" && Contains(NameWithoutExt(name), KeepPngMarker)
    ensures var r := ProcessFile(v, fs, oracle, dir, name);
            && r.calls == []
            && (r.outcome == Completed <==>
                  (OutDir(dir) in fs.dirs || OutDir(dir) !in oracle.mkdirFails) && dir + [name] !in oracle.copyFails)
            && (r.outcome == Completed ==> r.fs.files == fs.files[OutDir(dir) + [name] := Copied(dir + [name])])
            && (r.outcome != Completed ==> r.fs.files == fs.files && r.outcome.Threw?)
  {
  }

  /**
   * Any other `.jpg`, `.jpeg` or `.png` reaches the encoder exactly once and never
   * ends the walk; unless the file is corrupt, the directory cannot be made or the
   * encode fails, `<nameWithoutExt>.webp` in the mirrored directory holds its
   * encoding, and otherwise no file changes. Nothing is ever copied for it.
   */
  lemma ConvertibleEncoded(v: Variant, oracle: Oracle, dir: Path, name: string, fs: Fs)
    requires IsImageExtension(Ext(name)) && Ext(name) != ".webp"
    requires !(Ext(name) == ".png" && Contains(NameWithoutExt(name), KeepPngMarker))
    ensures var r := ProcessFile(v, fs, oracle, dir, name);
            var src := dir + [name];
            var healthy := src !in oracle.corrupt && src !in oracle.encodeFails
                           && (OutDir(dir) in fs.dirs || OutDir(dir) !in oracle.mkdirFails);
            && r.calls == [src]
            && r.outcome == Completed
            && (healthy ==> r.fs.files == fs.files[OutDir(dir) + [NameWithoutExt(name) + ".webp"]
                                                   := Encoded(src, OptionsFor(v, Ext(name)))])
            && (!healthy ==> r.fs.files == fs.files)
  {
    assert ProcessFile(v, fs, oracle, dir, name)
           == ConvertToWebp(v, fs, oracle, dir, dir + [name], NameWithoutExt(name), Ext(name));
    ConvertEffect(v, fs, oracle, dir, dir + [name], NameWithoutExt(name), Ext(name));
  }

  /** What `convertToWebP` does, whatever the names it is given. */
  lemma ConvertEffect(v: Variant, fs: Fs, oracle: Oracle, dir: Path, src: Path, nameWithoutExt: string, ext: string)
    ensures var r := ConvertToWebp(v, fs, oracle, dir, src, nameWithoutExt, ext);
            var healthy := src !in oracle.corrupt && src !in oracle.encodeFails
                           && (OutDir(dir) in fs.dirs || OutDir(dir) !in oracle.mkdirFails);
            && r.calls == [src]
            && r.outcome == Completed
            && (healthy ==> r.fs.files == fs.files[OutDir(dir) + [nameWithoutExt + ".webp"] := Encoded(src, OptionsFor(v, ext))])
            && (!healthy ==> r.fs.files == fs.files)
            && fs.dirs <= r.fs.dirs
            && (forall d :: d in r.fs.dirs && d !in fs.dirs ==> d in Prefixes(OutDir(dir)))
  {
  }

  /** The encoder options: quality 80 always; `lossless`/`nearLossless` only for PNGs in the library, explicit in the script. */
  lemma OptionsRule(v: Variant, ext: string)
    ensures OptionsFor(v, ext).quality == 80
    ensures v.Library? ==> (OptionsFor(v, ext).lossless.Some? <==> ext == ".png")
    ensures v.Library? && ext == ".png" ==> OptionsFor(v, ext).lossless == OptionsFor(v, ext).nearLossless == Some(true)
    ensures v.Library? && ext != ".png" ==> OptionsFor(v, ext).nearLossless.None?
    ensures v == Script ==> OptionsFor(v, ext).lossless == OptionsFor(v, ext).nearLossless == Some(ext == ".png")
  {
  }

  // ---- without fatal errors the walk does the whole plan ----

  lemma FileWithoutFatal(v: Variant, oracle: Oracle, dir: Path, name: string, fs: Fs)
    requires oracle.copyFails == {} && oracle.mkdirFails == {}
    ensures var r := ProcessFile(v, fs, oracle, dir, name);
            var plan := PlanFile(v, dir, name);
            r.outcome == Completed && r.calls == Sources(plan) && r.fs.files == Apply(fs.files, Healthy(plan, oracle))
  {
    match Classify(name)
    case KeepPng => CopyWithoutFatal(oracle, dir, name, fs);
    case Convertible => EncodeWithoutFatal(v, oracle, dir, name, NameWithoutExt(name), Ext(name), fs);
    case _ =>
  }

  /** The copy of a keep-PNG completes and is its plan when neither `mkdir` nor `copyFile` fails. */
  lemma CopyWithoutFatal(oracle: Oracle, dir: Path, name: string, fs: Fs)
    requires oracle.copyFails == {} && oracle.mkdirFails == {}
    ensures var r := CopyPngFile(fs, oracle, dir, name, dir + [name]);
            var plan := [Write(OutDir(dir) + [name], Copied(dir + [name]))];
            r.outcome == Completed && r.calls == Sources(plan) && r.fs.files == Apply(fs.files, Healthy(plan, oracle))
  {
    var plan := [Write(OutDir(dir) + [name], Copied(dir + [name]))];
    assert Healthy(plan, oracle) == plan;
    assert Sources(plan) == [];
  }

  /** An encode completes, and writes its plan unless the encoder fails on it, when `mkdir` does not fail. */
  lemma EncodeWithoutFatal(v: Variant, oracle: Oracle, dir: Path, name: string, nameWithoutExt: string, ext: string, fs: Fs)
    requires oracle.mkdirFails == {}
    ensures var r := ConvertToWebp(v, fs, oracle, dir, dir + [name], nameWithoutExt, ext);
            var plan := [Write(OutDir(dir) + [nameWithoutExt + ".webp"], Encoded(dir + [name], OptionsFor(v, ext)))];
            r.outcome == Completed && r.calls == Sources(plan) && r.fs.files == Apply(fs.files, Healthy(plan, oracle))
  {
    var plan := [Write(OutDir(dir) + [nameWithoutExt + ".webp"], Encoded(dir + [name], OptionsFor(v, ext)))];
    ConvertEffect(v, fs, oracle, dir, dir + [name], nameWithoutExt, ext);
    assert Sources(plan) == [dir + [name]];
    assert Healthy(plan, oracle) == if EncodeFails(oracle, plan[0]) then [] else plan;
  }

  /**
   * With every directory readable and no `copyFile` or `mkdir` failing, the loop
   * over `es` completes whatever the encoder does: every convertible image reaches
   * the encoder, in order, and the files are exactly the planned writes minus the
   * encodes that fail.
   */
  lemma {:induction false} EntriesWithoutFatal(v: Variant, oracle: Oracle, dir: Path, es: seq<Entry>, fs: Fs)
    requires Readable(es) && oracle.copyFails == {} && oracle.mkdirFails == {}
    ensures var r := WalkEntries(v, oracle, dir, es, fs);
            var plan := Plan(v, dir, es);
            r.outcome == Completed && r.calls == Sources(plan) && r.fs.files == Apply(fs.files, Healthy(plan, oracle))
    decreases es
  {
    if |es| > 0 {
      var a := PlanEntry(v, dir, es[0]);
      var b := Plan(v, dir, es[1..]);
      EntryWithoutFatal(v, oracle, dir, es[0], fs);
      var r0 := ProcessEntry(v, oracle, dir, es[0], fs);
      assert forall i :: 0 <= i < |es| - 1 ==> es[1..][i] == es[i + 1];
      EntriesWithoutFatal(v, oracle, dir, es[1..], r0.fs);
      SourcesAppend(a, b);
      HealthyAppend(a, b, oracle);
      ApplyAppend(fs.files, Healthy(a, oracle), Healthy(b, oracle));
    }
  }

  lemma {:induction false} EntryWithoutFatal(v: Variant, oracle: Oracle, dir: Path, e: Entry, fs: Fs)
    requires e.Dir? ==> e.listing.Listed? && Readable(e.listing.entries)
    requires oracle.copyFails == {} && oracle.mkdirFails == {}
    ensures var r := ProcessEntry(v, oracle, dir, e, fs);
            var plan := PlanEntry(v, dir, e);
            r.outcome == Completed && r.calls == Sources(plan) && r.fs.files == Apply(fs.files, Healthy(plan, oracle))
    decreases e
  {
    match e
    case File(name) => FileWithoutFatal(v, oracle, dir, name, fs);
    case Dir(name, l) => EntriesWithoutFatal(v, oracle, dir + [name], l.entries, fs);
  }

  /** `optimizeImages(dir)` on a readable tree, in the same conditions. */
  lemma WalkWithoutFatal(v: Variant, oracle: Oracle, dir: Path, es: seq<Entry>, fs: Fs)
    requires Readable(es) && oracle.copyFails == {} && oracle.mkdirFails == {}
    ensures var r := Walk(v, oracle, dir, Listed(es), fs);
            var plan := Plan(v, dir, es);
            r.outcome == Completed && r.calls == Sources(plan) && r.fs.files == Apply(fs.files, Healthy(plan, oracle))
  {
    EntriesWithoutFatal(v, oracle, dir, es, fs);
  }

  // ---- whatever fails, the walk stays within its plan ----

  /**
   * From `fs` to `r` nothing happens that the writes `ws` do not name: no file
   * disappears, every file that changed holds what one of the writes puts there,
   * every new directory leads to a written file, the encoder saw a prefix of the
   * planned encodes, and all of them when the step completed.
   */
  predicate WithinPlan(fs: Fs, r: Step, ws: seq<Write>) {
    && fs.files.Keys <= r.fs.files.Keys
    && (forall k :: k in r.fs.files && (k !in fs.files || r.fs.files[k] != fs.files[k]) ==> Write(k, r.fs.files[k]) in ws)
    && fs.dirs <= r.fs.dirs
    && (forall d :: d in r.fs.dirs && d !in fs.dirs ==> d in PlanDirs(ws))
    && r.calls <= Sources(ws)
    && (r.outcome == Completed ==> r.calls == Sources(ws))
  }

  /** A step that stays within `a` stays within any plan that starts with `a`. */
  lemma WithinLongerPlan(fs: Fs, r: Step, a: seq<Write>, b: seq<Write>)
    requires WithinPlan(fs, r, a) && r.outcome != Completed
    ensures WithinPlan(fs, r, a + b)
  {
    SourcesAppend(a, b);
    PlanDirsAppend(a, b);
    forall k | k in r.fs.files && (k !in fs.files || r.fs.files[k] != fs.files[k])
      ensures Write(k, r.fs.files[k]) in a + b
    {
      assert Write(k, r.fs.files[k]) in a;
    }
  }

  /** Two steps in a row stay within the two plans one after the other. */
  lemma WithinJoinedPlans(fs: Fs, r0: Step, r1: Step, a: seq<Write>, b: seq<Write>)
    requires WithinPlan(fs, r0, a) && r0.outcome == Completed && WithinPlan(r0.fs, r1, b)
    ensures WithinPlan(fs, Step(r1.fs, r0.calls + r1.calls, r1.outcome), a + b)
  {
    SourcesAppend(a, b);
    PlanDirsAppend(a, b);
    forall k | k in r1.fs.files && (k !in fs.files || r1.fs.files[k] != fs.files[k])
      ensures Write(k, r1.fs.files[k]) in a + b
    {
      if k in r0.fs.files && r1.fs.files[k] == r0.fs.files[k] {
        assert Write(k, r0.fs.files[k]) in a;
      } else {
        assert Write(k, r1.fs.files[k]) in b;
      }
    }
  }

  lemma FileWithinPlan(v: Variant, oracle: Oracle, dir: Path, name: string, fs: Fs)
    ensures WithinPlan(fs, ProcessFile(v, fs, oracle, dir, name), PlanFile(v, dir, name))
  {
    match Classify(name)
    case KeepPng => CopyWithinPlan(oracle, dir, name, fs);
    case Convertible => EncodeWithinPlan(v, oracle, dir, name, NameWithoutExt(name), Ext(name), fs);
    case _ =>
  }

  /** Whatever fails, the copy of a keep-PNG stays within its one planned write. */
  lemma CopyWithinPlan(oracle: Oracle, dir: Path, name: string, fs: Fs)
    ensures WithinPlan(fs, CopyPngFile(fs, oracle, dir, name, dir + [name]),
                       [Write(OutDir(dir) + [name], Copied(dir + [name]))])
  {
    var plan := [Write(OutDir(dir) + [name], Copied(dir + [name]))];
    assert PlanDirs(plan) == Prefixes(OutDir(dir)) by { assert TargetDir(plan[0]) == OutDir(dir); }
    assert Sources(plan) == [];
  }

  /** Whatever fails, an encode stays within its one planned write. */
  lemma EncodeWithinPlan(v: Variant, oracle: Oracle, dir: Path, name: string, nameWithoutExt: string, ext: string, fs: Fs)
    ensures WithinPlan(fs, ConvertToWebp(v, fs, oracle, dir, dir + [name], nameWithoutExt, ext),
                       [Write(OutDir(dir) + [nameWithoutExt + ".webp"], Encoded(dir + [name], OptionsFor(v, ext)))])
  {
    var plan := [Write(OutDir(dir) + [nameWithoutExt + ".webp"], Encoded(dir + [name], OptionsFor(v, ext)))];
    ConvertEffect(v, fs, oracle, dir, dir + [name], nameWithoutExt, ext);
    assert PlanDirs(plan) == Prefixes(OutDir(dir)) by { assert TargetDir(plan[0]) == OutDir(dir); }
    assert Sources(plan) == [dir + [name]];
  }

  /**
   * Whatever fails, the walk writes only planned artifacts, creates only
   * directories on the way to them and encodes a prefix of the planned encodes.
   */
  lemma {:induction false} EntriesWithinPlan(v: Variant, oracle: Oracle, dir: Path, es: seq<Entry>, fs: Fs)
    ensures WithinPlan(fs, WalkEntries(v, oracle, dir, es, fs), Plan(v, dir, es))
    decreases es
  {
    if |es| > 0 {
      var a := PlanEntry(v, dir, es[0]);
      var b := Plan(v, dir, es[1..]);
      var r0 := ProcessEntry(v, oracle, dir, es[0], fs);
      EntryWithinPlan(v, oracle, dir, es[0], fs);
      if r0.outcome != Completed {
        WithinLongerPlan(fs, r0, a, b);
      } else {
        var r1 := WalkEntries(v, oracle, dir, es[1..], r0.fs);
        EntriesWithinPlan(v, oracle, dir, es[1..], r0.fs);
        WithinJoinedPlans(fs, r0, r1, a, b);
      }
    }
  }

  lemma {:induction false} EntryWithinPlan(v: Variant, oracle: Oracle, dir: Path, e: Entry, fs: Fs)
    ensures WithinPlan(fs, ProcessEntry(v, oracle, dir, e, fs), PlanEntry(v, dir, e))
    decreases e
  {
    match e
    case File(name) => FileWithinPlan(v, oracle, dir, name, fs);
    case Dir(name, l) =>
      if l.Listed? {
        EntriesWithinPlan(v, oracle, dir + [name], l.entries, fs);
      }
  }

  /** `optimizeImages(dir)` stays within the plan of whatever part of the tree it reads. */
  lemma WalkWithinPlan(v: Variant, oracle: Oracle, dir: Path, l: Listing, fs: Fs)
    ensures WithinPlan(fs, Walk(v, oracle, dir, l, fs), if l.Listed? then Plan(v, dir, l.entries) else [])
  {
    if l.Listed? {
      EntriesWithinPlan(v, oracle, dir, l.entries, fs);
    }
  }

  // ---- how the walk ends ----

  /** What the loop over entries can end with: any exception, and `exit(1)` outside test mode. */
  predicate LoopOutcome(v: Variant, o: Outcome) {
    o == Completed || o.Threw? || (v != Library(true) && o == Exited(1))
  }

  /**
   * `optimizeImages` either completes, or in test mode rethrows, or otherwise
   * exits with code 1; the script, which has no test mode, never throws.
   */
  lemma {:induction false} WalkOutcome(v: Variant, oracle: Oracle, dir: Path, l: Listing, fs: Fs)
    ensures var o := Walk(v, oracle, dir, l, fs).outcome;
            o == Completed || (v == Library(true) && o.Threw?) || (v != Library(true) && o == Exited(1))
    ensures l.ReadFailed? ==> Walk(v, oracle, dir, l, fs).outcome != Completed
    decreases l
  {
    if l.Listed? {
      EntriesOutcome(v, oracle, dir, l.entries, fs);
    }
  }

  lemma {:induction false} EntriesOutcome(v: Variant, oracle: Oracle, dir: Path, es: seq<Entry>, fs: Fs)
    ensures LoopOutcome(v, WalkEntries(v, oracle, dir, es, fs).outcome)
    decreases es
  {
    if |es| > 0 {
      var r0 := ProcessEntry(v, oracle, dir, es[0], fs);
      EntryOutcome(v, oracle, dir, es[0], fs);
      if r0.outcome == Completed {
        EntriesOutcome(v, oracle, dir, es[1..], r0.fs);
      }
    }
  }

  lemma {:induction false} EntryOutcome(v: Variant, oracle: Oracle, dir: Path, e: Entry, fs: Fs)
    ensures LoopOutcome(v, ProcessEntry(v, oracle, dir, e, fs).outcome)
    decreases e
  {
    match e
    case File(name) => FileOutcome(v, oracle, dir, name, fs);
    case Dir(name, l) => WalkOutcome(v, oracle, dir + [name], l, fs);
  }

  /** A file either completes or throws (a keep-PNG copy failure); it never exits. */
  lemma FileOutcome(v: Variant, oracle: Oracle, dir: Path, name: string, fs: Fs)
    ensures var o := ProcessFile(v, fs, oracle, dir, name).outcome;
            o == Completed || o.Threw?
  {
    var kind := Classify(name);
    if kind == KeepPng {
      KeepPngCopied(v, oracle, dir, name, fs);
    } else if kind == Convertible {
      ConvertibleEncoded(v, oracle, dir, name, fs);
    } else {
      SkippedFile(v, oracle, dir, name, fs);
    }
  }

  // ---- a fatal error anywhere stops the whole walk ----

  /** Some directory of the listing, at any depth, cannot be read, or some keep-PNG in it cannot be copied. */
  predicate ListingFatal(oracle: Oracle, dir: Path, l: Listing)
    decreases l
  {
    match l
    case ReadFailed => true
    case Listed(es) => EntriesFatal(oracle, dir, es)
  }

  predicate EntriesFatal(oracle: Oracle, dir: Path, es: seq<Entry>)
    decreases es
  {
    |es| > 0 && (EntryFatal(oracle, dir, es[0]) || EntriesFatal(oracle, dir, es[1..]))
  }

  predicate EntryFatal(oracle: Oracle, dir: Path, e: Entry)
    decreases e
  {
    match e
    case Dir(name, l) => ListingFatal(oracle, dir + [name], l)
    case File(name) => Classify(name) == KeepPng && dir + [name] in oracle.copyFails
  }

  /**
   * An unreadable directory or a failed keep-PNG copy anywhere in the tree ends
   * the walk of the top directory without completing: it rethrows (test mode) or
   * exits, whichever entries were processed before it.
   */
  lemma {:induction false} WalkFatal(v: Variant, oracle: Oracle, dir: Path, l: Listing, fs: Fs)
    requires ListingFatal(oracle, dir, l)
    ensures Walk(v, oracle, dir, l, fs).outcome != Completed
    decreases l
  {
    if l.Listed? {
      EntriesFatalStop(v, oracle, dir, l.entries, fs);
    }
  }

  lemma {:induction false} EntriesFatalStop(v: Variant, oracle: Oracle, dir: Path, es: seq<Entry>, fs: Fs)
    requires EntriesFatal(oracle, dir, es)
    ensures WalkEntries(v, oracle, dir, es, fs).outcome != Completed
    decreases es
  {
    var r0 := ProcessEntry(v, oracle, dir, es[0], fs);
    if EntryFatal(oracle, dir, es[0]) {
      EntryFatalStop(v, oracle, dir, es[0], fs);
    } else if r0.outcome == Completed {
      EntriesFatalStop(v, oracle, dir, es[1..], r0.fs);
    }
  }

  lemma {:induction false} EntryFatalStop(v: Variant, oracle: Oracle, dir: Path, e: Entry, fs: Fs)
    requires EntryFatal(oracle, dir, e)
    ensures ProcessEntry(v, oracle, dir, e, fs).outcome != Completed
    decreases e
  {
    match e
    case File(name) => KeepPngCopied(v, oracle, dir, name, fs);
    case Dir(name, l) => WalkFatal(v, oracle, dir + [name], l, fs);
  }

  // ---- the plan mirrors public/ into public/dist/ ----

  /** A normal directory inside `public/`. */
  predicate InPublic(dir: Path) {
    Under(PublicDir, dir) && NormalPath(dir)
  }

  /** The output directory of a directory inside `public/` is `dist/` followed by its path below `public/`. */
  lemma OutDirMirrors(dir: Path)
    requires InPublic(dir)
    ensures OutDir(dir) == DistDir + dir[|PublicDir|..]
  {
    RelativeUnder(PublicDir, dir);
    assert NormalPath(dir[|PublicDir|..]) by {
      assert forall i :: 0 <= i < |dir| - |PublicDir| ==> dir[|PublicDir|..][i] == dir[|PublicDir| + i];
    }
    JoinNormal(DistDir, dir[|PublicDir|..]);
  }

  /**
   * A write mirrors its source: the source is a copied keep-PNG or an encoded
   * convertible image lying in `dir` or below, the file goes
   * to `dist/` plus the source's directory below `public/`, and it is named as
   * the source (a copy) or as the source without its extension plus `.webp`.
   */
  predicate Mirrors(dir: Path, w: Write) {
    var src := w.artifact.src;
    && |PublicDir| <= |dir| < |src| && Under(dir, src) && NormalPath(src) && |w.target| > 0
    && Classify(Last(src)) == (if w.artifact.Copied? then KeepPng else Convertible)
    && Parent(w.target) == DistDir + Parent(src)[|PublicDir|..]
    && Last(w.target) == (if w.artifact.Copied? then Last(src) else NameWithoutExt(Last(src)) + ".webp")
  }

  lemma PlanFileMirrors(v: Variant, dir: Path, name: string)
    requires InPublic(dir) && ValidName(name)
    ensures forall w :: w in PlanFile(v, dir, name) ==> Mirrors(dir, w)
  {
    match Classify(name)
    case KeepPng => WriteMirrors(dir, name, name, Copied(dir + [name]));
    case Convertible => WriteMirrors(dir, name, NameWithoutExt(name) + ".webp", Encoded(dir + [name], OptionsFor(v, Ext(name))));
    case _ =>
  }

  /** A file named `target` in the output directory of `dir`, made from `dir`'s entry `name`, mirrors it. */
  lemma WriteMirrors(dir: Path, name: string, target: string, a: Artifact)
    requires InPublic(dir) && ValidName(name) && a.src == dir + [name]
    requires Classify(name) == (if a.Copied? then KeepPng else Convertible)
    requires target == if a.Copied? then name else NameWithoutExt(name) + ".webp"
    ensures Mirrors(dir, Write(OutDir(dir) + [target], a))
  {
    OutDirMirrors(dir);
    var src := dir + [name];
    var t := OutDir(dir) + [target];
    assert forall i :: 0 <= i < |dir| ==> src[i] == dir[i];
    assert Parent(src) == dir && Last(src) == name && src[..|dir|] == dir;
    assert Parent(t) == OutDir(dir) && Last(t) == target;
  }

  /** Every planned write, at any depth, mirrors its source. */
  lemma {:induction false} PlanMirrors(v: Variant, dir: Path, es: seq<Entry>)
    requires InPublic(dir) && WellFormed(es)
    ensures forall w :: w in Plan(v, dir, es) ==> Mirrors(dir, w)
    decreases es
  {
    if |es| > 0 {
      assert forall i :: 0 <= i < |es| - 1 ==> es[1..][i] == es[i + 1];
      PlanEntryMirrors(v, dir, es[0]);
      PlanMirrors(v, dir, es[1..]);
    }
  }

  lemma {:induction false} PlanEntryMirrors(v: Variant, dir: Path, e: Entry)
    requires InPublic(dir) && ValidName(e.name)
    requires e.Dir? && e.listing.Listed? ==> WellFormed(e.listing.entries)
    ensures forall w :: w in PlanEntry(v, dir, e) ==> Mirrors(dir, w)
    decreases e
  {
    match e
    case File(name) => PlanFileMirrors(v, dir, name);
    case Dir(name, l) =>
      if l.Listed? {
        var sub := dir + [name];
        assert sub[..|PublicDir|] == dir[..|PublicDir|];
        assert InPublic(sub);
        PlanMirrors(v, sub, l.entries);
        forall w | w in Plan(v, sub, l.entries) ensures Mirrors(dir, w) {
          MirrorsAbove(dir, name, w);
        }
      }
  }

  /** A write that mirrors its source from a sub-directory mirrors it from the directory above too. */
  lemma MirrorsAbove(dir: Path, name: string, w: Write)
    requires |PublicDir| <= |dir| && Mirrors(dir + [name], w)
    ensures Mirrors(dir, w)
  {
    var src := w.artifact.src;
    assert src[..|dir|] == src[..|dir + [name]|][..|dir|];
  }

  /**
   * Starting at a directory inside `public/` over a well-formed tree, whatever
   * fails, no file outside `public/dist/` is created, changed or removed.
   */
  lemma WalkStaysInDist(v: Variant, oracle: Oracle, dir: Path, es: seq<Entry>, fs: Fs)
    requires InPublic(dir) && WellFormed(es)
    ensures var r := Walk(v, oracle, dir, Listed(es), fs);
            forall k :: !Under(DistDir, k) ==>
              (k in r.fs.files <==> k in fs.files) && (k in fs.files ==> r.fs.files[k] == fs.files[k])
  {
    var r := Walk(v, oracle, dir, Listed(es), fs);
    WalkWithinPlan(v, oracle, dir, Listed(es), fs);
    PlanMirrors(v, dir, es);
    forall k | k in r.fs.files && (k !in fs.files || r.fs.files[k] != fs.files[k])
      ensures Under(DistDir, k)
    {
      var w := Write(k, r.fs.files[k]);
      assert Mirrors(dir, w);
      InDist(k, Parent(w.artifact.src)[|PublicDir|..]);
    }
  }

  lemma InDist(t: Path, rest: Path)
    requires |t| > 0 && Parent(t) == DistDir + rest
    ensures Under(DistDir, t)
  {
    assert t == Parent(t) + [Last(t)];
  }

  // ---- directories and cleaning ----

  /** Once `ensureDirectoryExists(d)` succeeded, calling it again changes nothing and succeeds. */
  lemma EnsureDirIdempotent(fs: Fs, oracle: Oracle, d: Path)
    ensures var e := EnsureDir(fs, oracle, d);
            e.fault.None? ==> EnsureDir(e.fs, oracle, d) == DirStep(e.fs, None)
  {
  }

  /**
   * `cleanDistDirectory` never fails the build: either nothing under `dist`
   * remains and everything else is kept, or (when `rm` fails) nothing changes.
   * Cleaning twice is cleaning once.
   */
  lemma CleanRemovesDist(fs: Fs, rmFails: bool)
    ensures var c := Clean(fs, rmFails);
            && (rmFails ==> c == fs)
            && (!rmFails ==> (forall k :: k in c.files <==> k in fs.files && !Under(DistDir, k))
                             && (forall k :: k in c.files ==> c.files[k] == fs.files[k])
                             && (forall d :: d in c.dirs <==> d in fs.dirs && !Under(DistDir, d)))
    ensures Clean(Clean(fs, rmFails), rmFails) == Clean(fs, rmFails)
  {
  }

  // ---- a rebuild after a reset ----

  /**
   * Cleaning `public/dist` after a walk of `public/` gives back the state before
   * it, when that state held nothing under `public/dist` and `public/` existed.
   */
  lemma ResetUndoesWalk(v: Variant, oracle: Oracle, es: seq<Entry>, fs: Fs)
    requires WellFormed(es) && Prefixes(PublicDir) <= fs.dirs
    requires forall k :: k in fs.files ==> !Under(DistDir, k)
    requires forall d :: d in fs.dirs ==> !Under(DistDir, d)
    ensures Clean(Walk(v, oracle, PublicDir, Listed(es), fs).fs, false) == fs
  {
    var r := Walk(v, oracle, PublicDir, Listed(es), fs);
    ResetFiles(v, oracle, es, fs);
    ResetDirs(v, oracle, es, fs);
    assert Clean(r.fs, false) == Fs(Clean(r.fs, false).files, Clean(r.fs, false).dirs);
  }

  /** The files part of `ResetUndoesWalk`: the walk changes files only under `public/dist`. */
  lemma ResetFiles(v: Variant, oracle: Oracle, es: seq<Entry>, fs: Fs)
    requires WellFormed(es)
    requires forall k :: k in fs.files ==> !Under(DistDir, k)
    ensures Clean(Walk(v, oracle, PublicDir, Listed(es), fs).fs, false).files == fs.files
  {
    var c := Clean(Walk(v, oracle, PublicDir, Listed(es), fs).fs, false);
    assert InPublic(PublicDir);
    WalkStaysInDist(v, oracle, PublicDir, es, fs);
    assert c.files.Keys == fs.files.Keys;
  }

  /** The directories part of `ResetUndoesWalk`: outside `public/dist` the walk creates only what existed. */
  lemma ResetDirs(v: Variant, oracle: Oracle, es: seq<Entry>, fs: Fs)
    requires WellFormed(es) && Prefixes(PublicDir) <= fs.dirs
    requires forall d :: d in fs.dirs ==> !Under(DistDir, d)
    ensures Clean(Walk(v, oracle, PublicDir, Listed(es), fs).fs, false).dirs == fs.dirs
  {
    var r := Walk(v, oracle, PublicDir, Listed(es), fs);
    assert InPublic(PublicDir);
    WalkWithinPlan(v, oracle, PublicDir, Listed(es), fs);
    PlanMirrors(v, PublicDir, es);
    MirroredDirsOutsideDist(PublicDir, Plan(v, PublicDir, es));
    forall d | d in r.fs.dirs && !Under(DistDir, d)
      ensures d in fs.dirs
    {
    }
  }

  /**
   * `mkdir -p` for writes that mirror their sources creates, outside
   * `public/dist`, only `public/` and its ancestors.
   */
  lemma {:induction false} MirroredDirsOutsideDist(dir: Path, ws: seq<Write>)
    requires forall w :: w in ws ==> Mirrors(dir, w)
    ensures forall d :: d in PlanDirs(ws) ==> Under(DistDir, d) || d in Prefixes(PublicDir)
    decreases |ws|
  {
    if |ws| > 0 {
      assert forall w :: w in ws[1..] ==> w in ws;
      MirroredDirsOutsideDist(dir, ws[1..]);
      MirroredTargetDir(dir, ws[0]);
      PrefixesOfDistPath(TargetDir(ws[0]));
    }
  }

  /** A write that mirrors its source puts its file in `public/dist` or below. */
  lemma MirroredTargetDir(dir: Path, w: Write)
    requires Mirrors(dir, w)
    ensures Under(DistDir, TargetDir(w))
  {
    var rest := Parent(w.artifact.src)[|PublicDir|..];
    assert TargetDir(w) == DistDir + rest;
    assert (DistDir + rest)[..|DistDir|] == DistDir;
  }

  /** The ancestors of a path in `public/dist` are in `public/dist` or are ancestors of `public/`. */
  lemma PrefixesOfDistPath(t: Path)
    requires Under(DistDir, t)
    ensures forall d :: d in Prefixes(t) ==> Under(DistDir, d) || d in Prefixes(PublicDir)
  {
    forall d | d in Prefixes(t)
      ensures Under(DistDir, d) || d in Prefixes(PublicDir)
    {
      var k :| 0 <= k <= |t| && d == t[..k];
      if k < |DistDir| {
        assert d == DistDir[..k] && DistDir[..k] == PublicDir[..k];
      } else {
        assert d[..|DistDir|] == t[..|DistDir|];
      }
    }
  }

  /**
   * Running the transcoder twice with a reset of `public/dist` before each run
   * on an unchanged tree gives the same result: the second run writes the
   * same files and directories, hands the same files to the encoder and ends
   * the same way as the first.
   */
  lemma TwiceWithReset(v: Variant, oracle: Oracle, es: seq<Entry>, fs: Fs)
    requires WellFormed(es) && Prefixes(PublicDir) <= fs.dirs
    ensures var r1 := Walk(v, oracle, PublicDir, Listed(es), Clean(fs, false));
            Walk(v, oracle, PublicDir, Listed(es), Clean(r1.fs, false)) == r1
  {
    var c := Clean(fs, false);
    forall d | d in Prefixes(PublicDir)
      ensures d in c.dirs
    {
      assert !Under(DistDir, d);
    }
    ResetUndoesWalk(v, oracle, es, c);
  }
}
