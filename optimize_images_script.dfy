/**
 * scripts/optimize-images.js, the older inline copy of the transcoder: one
 * `for` loop over the entries with `continue` branches, recursion into
 * sub-directories, and an outer `catch` that always ends the process with
 * `exit(1)`; and the driver that cleans `dist` before walking `public`.
 * What the loop does for a file (lines 31-83: the two `continue` skips, the
 * keep-PNG copy and the `try` around the conversion) is what the library's
 * `processFile` does for one, so the same method performs it, with the
 * script's option rule (`Variant.Script`).
 */
module TranscoderScript {
  import opened Wrappers
  import opened Strings
  import opened NodePath
  import opened Transcoding
  import opened TranscodingProperties
  import Transcoder

  /** `optimizeImages(directory)`, where `listing` is what `readdir(directory)` returns. */
  method OptimizeImages(out: OutputFs, oracle: Oracle, directory: Path, listing: Listing)
    returns (outcome: Outcome)
    modifies out
    ensures var r := Walk(Script, oracle, directory, listing, old(out.State()));
            out.State() == r.fs && out.encoderCalls == old(out.encoderCalls) + r.calls && outcome == r.outcome
    decreases listing
  {
    if listing.ReadFailed? {
      return Exited(1);  // the outer catch: process.exit(1)
    }
    var files := listing.entries;
    ghost var fs0 := out.State();
    ghost var calls0 := out.encoderCalls;
    ghost var made: seq<Path> := [];
    var i := 0;
    outcome := Completed;
    while i < |files| && outcome == Completed
      invariant 0 <= i <= |files|
      invariant out.encoderCalls == calls0 + made
      invariant outcome == Completed ==>
        WalkEntries(Script, oracle, directory, files, fs0)
        == Transcoder.Resume(made, WalkEntries(Script, oracle, directory, files[i..], out.State()))
      invariant outcome != Completed ==>
        WalkEntries(Script, oracle, directory, files, fs0) == Step(out.State(), made, outcome)
    {
      var file := files[i];
      ghost var r := ProcessEntry(Script, oracle, directory, file, out.State());
      Transcoder.WalkEntriesAt(Script, oracle, directory, files, i, out.State());
      Transcoder.Associative(calls0, made, r.calls);
      if r.outcome == Completed {
        Transcoder.Associative(made, r.calls, WalkEntries(Script, oracle, directory, files[i + 1..], r.fs).calls);
      }
      made := made + r.calls;
      i := i + 1;

      var fullPath := directory + [file.name];
      if file.Dir? {
        outcome := OptimizeImages(out, oracle, fullPath, file.listing);
        continue;
      }
      // lines 31-83: skip non-images and WebP, copy keep-PNGs, convert the rest
      EntryIsFile(Script, oracle, directory, file, out.State());
      outcome := Transcoder.ProcessImageFile(out, Script, oracle, directory, file.name);
    }
    outcome := Catch(Script, outcome);  // a failed copy reaches the outer catch: process.exit(1)
  }

  /** A file entry is processed as a file. */
  lemma EntryIsFile(v: Variant, oracle: Oracle, dir: Path, e: Entry, fs: Fs)
    requires e.File?
    ensures ProcessEntry(v, oracle, dir, e, fs) == ProcessFile(v, fs, oracle, dir, e.name)
  {
  }

  /**
   * The script's entry point: `cleanDistDirectory()` then `optimizeImages(PUBLIC_DIR)`,
   * where `tree` is what `readdir(PUBLIC_DIR)` returns once `dist` is cleaned.
   */
  method CleanThenOptimize(out: OutputFs, oracle: Oracle, rmFails: bool, tree: Listing)
    returns (outcome: Outcome)
    modifies out
    ensures var r := Walk(Script, oracle, PublicDir, tree, Clean(old(out.State()), rmFails));
            out.State() == r.fs && out.encoderCalls == old(out.encoderCalls) + r.calls && outcome == r.outcome
  {
    Transcoder.CleanDistDirectory(out, rmFails);
    outcome := OptimizeImages(out, oracle, PublicDir, tree);
  }
}
