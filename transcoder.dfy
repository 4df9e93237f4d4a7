/**
 * src/lib/optimize-images.ts as methods that change an `OutputFs` in place,
 * one source function per method; each is proved to end in the state, the
 * encoder calls and the outcome the functions of `Transcoding` give.
 */
module Transcoder {
  import opened Wrappers
  import opened Strings
  import opened NodePath
  import opened Transcoding
  import opened TranscodingProperties

  /** `ensureDirectoryExists(directory)` */
  method EnsureDirectoryExists(out: OutputFs, oracle: Oracle, directory: Path) returns (fault: Option<Fault>)
    modifies out
    ensures var r := EnsureDir(old(out.State()), oracle, directory);
            out.State() == r.fs && fault == r.fault
    ensures out.encoderCalls == old(out.encoderCalls)
  {
    if directory in out.dirs {
      return None;  // fs.access succeeds
    }
    if directory in oracle.mkdirFails {
      return Some(MkdirFailed(directory));
    }
    out.dirs := out.dirs + Prefixes(directory);
    return None;
  }

  /** `cleanDistDirectory()`: never throws. */
  method CleanDistDirectory(out: OutputFs, rmFails: bool)
    modifies out
    ensures out.State() == Clean(old(out.State()), rmFails)
    ensures out.encoderCalls == old(out.encoderCalls)
  {
    if rmFails {
      return;  // the error is logged and swallowed
    }
    out.files := map p | p in out.files && !Under(DistDir, p) :: out.files[p];
    out.dirs := set d | d in out.dirs && !Under(DistDir, d);
  }

  /** What is left of a walk after `made` has already been handed to the encoder. */
  ghost function Resume(made: seq<Path>, r: Step): Step {
    Step(r.fs, made + r.calls, r.outcome)
  }

  /** `optimizeImages(directory)`, where `listing` is what `readdir(directory)` returns. */
  method OptimizeImages(out: OutputFs, v: Variant, oracle: Oracle, directory: Path, listing: Listing)
    returns (outcome: Outcome)
    modifies out
    ensures var r := Walk(v, oracle, directory, listing, old(out.State()));
            out.State() == r.fs && out.encoderCalls == old(out.encoderCalls) + r.calls && outcome == r.outcome
    decreases listing
  {
    match listing
    case ReadFailed =>
      outcome := Catch(v, Threw(ReadDirFailed(directory)));
    case Listed(files) =>
      ghost var fs0 := out.State();
      ghost var calls0 := out.encoderCalls;
      ghost var made: seq<Path> := [];
      var i := 0;
      outcome := Completed;
      while i < |files| && outcome == Completed
        invariant 0 <= i <= |files|
        invariant out.encoderCalls == calls0 + made
        invariant outcome == Completed ==>
          WalkEntries(v, oracle, directory, files, fs0)
          == Resume(made, WalkEntries(v, oracle, directory, files[i..], out.State()))
        invariant outcome != Completed ==>
          WalkEntries(v, oracle, directory, files, fs0) == Step(out.State(), made, outcome)
      {
        ghost var r := Transcoding.ProcessEntry(v, oracle, directory, files[i], out.State());
        WalkEntriesAt(v, oracle, directory, files, i, out.State());
        outcome := ProcessFile(out, v, oracle, directory, files[i]);
        Associative(calls0, made, r.calls);
        if r.outcome == Completed {
          Associative(made, r.calls, WalkEntries(v, oracle, directory, files[i + 1..], r.fs).calls);
        }
        made := made + r.calls;
        i := i + 1;
      }
      outcome := Catch(v, outcome);
  }

  /**
   * Concatenation of encoder calls regroups. A named lemma rather than an
   * inline `assert`: the loops that use it stay cheap with it.
   */
  lemma Associative(a: seq<Path>, b: seq<Path>, c: seq<Path>)
    ensures (a + b) + c == a + (b + c)
  {
  }

  /** One turn of the loop: the walk from entry `i` on is that entry's step, then the rest if it completed. */
  lemma WalkEntriesAt(v: Variant, oracle: Oracle, dir: Path, es: seq<Entry>, i: nat, fs: Fs)
    requires i < |es|
    ensures var r := ProcessEntry(v, oracle, dir, es[i], fs);
            WalkEntries(v, oracle, dir, es[i..], fs)
            == if r.outcome != Completed then r else Resume(r.calls, WalkEntries(v, oracle, dir, es[i + 1..], r.fs))
  {
    assert es[i..][0] == es[i] && es[i..][1..] == es[i + 1..];
  }

  /** `processFile(directory, file)` */
  method ProcessFile(out: OutputFs, v: Variant, oracle: Oracle, directory: Path, file: Entry)
    returns (outcome: Outcome)
    modifies out
    ensures var r := ProcessEntry(v, oracle, directory, file, old(out.State()));
            out.State() == r.fs && out.encoderCalls == old(out.encoderCalls) + r.calls && outcome == r.outcome
    decreases file
  {
    var fullPath := directory + [file.name];
    if file.Dir? {
      outcome := OptimizeImages(out, v, oracle, fullPath, file.listing);
      return;
    }
    outcome := ProcessImageFile(out, v, oracle, directory, file.name);
  }

  /** The part of `processFile(directory, file)` that handles a file entry. */
  method ProcessImageFile(out: OutputFs, v: Variant, oracle: Oracle, directory: Path, name: string)
    returns (outcome: Outcome)
    modifies out
    ensures var r := Transcoding.ProcessFile(v, old(out.State()), oracle, directory, name);
            out.State() == r.fs && out.encoderCalls == old(out.encoderCalls) + r.calls && outcome == r.outcome
  {
    var fullPath := directory + [name];
    var ext := Ext(name);
    var nameWithoutExt := NameWithoutExt(name);
    if !IsImageExtension(ext) {
      SkippedFile(v, oracle, directory, name, out.State());
      return Completed;
    }
    if ext == ".webp" {
      SkippedFile(v, oracle, directory, name, out.State());
      return Completed;
    }
    if ext == ".png" && Contains(nameWithoutExt, KeepPngMarker) {
      FileKept(v, oracle, directory, name, out.State());
      outcome := CopyPngFile(out, oracle, directory, name, fullPath);
      assert out.encoderCalls == old(out.encoderCalls) + [];
      return;
    }
    FileConverted(v, oracle, directory, name, out.State());
    outcome := ConvertToWebP(out, v, oracle, directory, fullPath, nameWithoutExt, ext);
  }

  /** A `.png` whose name without extension holds `.keep` is copied. */
  lemma FileKept(v: Variant, oracle: Oracle, dir: Path, name: string, fs: Fs)
    requires Ext(name) == ".png" && Contains(NameWithoutExt(name), KeepPngMarker)
    ensures Transcoding.ProcessFile(v, fs, oracle, dir, name) == Transcoding.CopyPngFile(fs, oracle, dir, name, dir + [name])
  {
  }

  /** Every other image is converted. */
  lemma FileConverted(v: Variant, oracle: Oracle, dir: Path, name: string, fs: Fs)
    requires IsImageExtension(Ext(name)) && Ext(name) != ".webp"
    requires !(Ext(name) == ".png" && Contains(NameWithoutExt(name), KeepPngMarker))
    ensures Transcoding.ProcessFile(v, fs, oracle, dir, name)
            == ConvertToWebp(v, fs, oracle, dir, dir + [name], NameWithoutExt(name), Ext(name))
  {
  }

  /** `copyPngFile(directory, fileName, fullPath)` */
  method CopyPngFile(out: OutputFs, oracle: Oracle, directory: Path, fileName: string, fullPath: Path)
    returns (outcome: Outcome)
    modifies out
    ensures var r := Transcoding.CopyPngFile(old(out.State()), oracle, directory, fileName, fullPath);
            out.State() == r.fs && out.encoderCalls == old(out.encoderCalls) && outcome == r.outcome
  {
    var relativePath := Relative(PublicDir, directory);
    var distDir := Join(DistDir, relativePath);
    var fault := EnsureDirectoryExists(out, oracle, distDir);
    if fault.Some? {
      return Threw(fault.value);
    }
    var distPath := distDir + [fileName];
    if fullPath in oracle.copyFails {
      return Threw(CopyFailed(fullPath));
    }
    out.files := out.files[distPath := Copied(fullPath)];
    return Completed;
  }

  /** `convertToWebP(directory, fullPath, nameWithoutExt, ext)`: every failure is caught. */
  method ConvertToWebP(out: OutputFs, v: Variant, oracle: Oracle, directory: Path, fullPath: Path,
                       nameWithoutExt: string, ext: string)
    returns (outcome: Outcome)
    modifies out
    ensures var r := ConvertToWebp(v, old(out.State()), oracle, directory, fullPath, nameWithoutExt, ext);
            out.State() == r.fs && out.encoderCalls == old(out.encoderCalls) + r.calls && outcome == r.outcome
  {
    out.encoderCalls := out.encoderCalls + [fullPath];  // sharp(fullPath)
    outcome := Completed;
    if fullPath in oracle.corrupt {
      return;  // image.metadata() throws
    }
    var relativePath := Relative(PublicDir, directory);
    var distDir := Join(DistDir, relativePath);
    var fault := EnsureDirectoryExists(out, oracle, distDir);
    if fault.Some? {
      return;
    }
    var webpName := nameWithoutExt + ".webp";
    var webpPath := distDir + [webpName];
    var options := OptionsFor(v, ext);
    if fullPath in oracle.encodeFails {
      return;  // toFile rejects
    }
    out.files := out.files[webpPath := Encoded(fullPath, options)];
  }
}
