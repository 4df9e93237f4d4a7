# new-blog image pipeline and content helpers, modelled in Dafny

This project models the logic of a Next.js blog that serves its images through
its own conventions.

- **Build-time transcoder.** `optimizeImages` (src/lib/optimize-images.ts, and
  its older inline copy scripts/optimize-images.js) walks `public/` depth first.
  For each file it does one of three things:
  - skips non-images and existing WebP files;
  - copies PNGs marked `.keep` verbatim into `public/dist/`;
  - hands every other JPEG or PNG to `sharp`, which writes
    `<name without extension>.webp` to the mirrored directory under
    `public/dist/`.
- **Request-time loader.** `imageLoader` (src/lib/image-loader.ts) turns an
  image reference, a width and an optional quality into the URL of that
  artifact.
- **Content helpers beside them.**
  - The remark plugin (src/lib/remark-image-prefix.ts) prefixes root-relative
    image URLs in Markdown with the site's base path.
  - The post listing (src/lib/posts.ts) derives slugs from file names, sorts
    posts newest first and looks a post up by slug.

The modules are:

- `Strings`: the JavaScript string operations used, over `seq<char>`. They take
  no part in the row list below except where a property of the system rests on
  one.
- `NodePath`: Node's `path` functions, with a path as a sequence of segments.
  - `extname` and `basename`.
  - `relative` and `join`; `join` normalises `.`, `..` and empty segments.
- `Loader`: `imageLoader` as a pure function, with its properties and the
  worked examples of its tests.
- `Transcoding`: the transcoder as functions on values.
  - The values are the directory tree `readdir` reveals, the output filesystem
    (files under `dist` as `Copied(src)` or `Encoded(src, options)`, and the set
    of existing directories), and an `Oracle` saying which `fs` and `sharp`
    calls fail.
  - The functions are the per-file decision and the recursive walk with its
    `try`/`catch` and test-mode flag.
  - It also holds the `OutputFs` class, the mutable output that the methods
    change.
- `Transcoder`: the library's functions as methods on an `OutputFs`, each proved
  to end in the state, encoder calls and outcome that `Transcoding` gives.
- `TranscoderScript`: the script's single loop with `continue` branches and its
  clean-then-optimize driver, proved against the same functions with the
  script's variant (no test mode, explicit `lossless` flags).
- `TranscodingProperties`: a reference definition of what a walk writes (the
  `Plan`), and the theorems relating the walk to it.
  - What the walk writes and encodes stays within the plan, and without fatal
    errors it is the whole plan.
  - Every write mirrors its source's directory under `dist/`.
  - The possible outcomes of a walk.
  - Cleaning and directory creation, and that a rebuild after a reset
    reproduces the first build.
- `Agreement`: the two components agree on URLs.
  - For every file the walk of `public/` copies, the loader's URL is that
    copy's own URL.
  - For every file it encodes, the loader's URL before `?` is the WebP file's
    URL. This needs three conditions: a lower-case extension, no `.keep` in a
    directory name, and no `?` or `#` in any segment. Three counterexamples show
    that each one is needed.
  - Together with the plan theorems: every file the walk leaves in `dist/` is
    where the loader sends a request for its source.
- `ImagePrefix`: the remark plugin as an in-place pass over an array of syntax
  tree nodes.
- `Posts`: the post listing as pure functions over a given directory listing
  (absent when `readdirSync` throws) and parsed front matter.

## Model

| member | source | states |
|---|---|---|
| Loader.ImageLoader | src/lib/image-loader.ts:5-33 | an external reference (`http…`, `//…`) is returned unchanged whatever the width and quality; every local reference gives a URL starting with `/dist/` |
| Loader.LocalUrl | src/lib/image-loader.ts:13-32 | every URL built for a local reference starts with `/dist/` |
| Loader.ExternalExamples | src/lib/__tests__/image-loader.test.ts:13-29 | `https://example.com/image.png` and `//example.com/image.png` come back unchanged |
| Loader.LeadingSlashIrrelevant | src/lib/image-loader.ts:13 | `/p` and `p` give the same URL for every `p` that starts neither with `/` nor with `http` (exactly one leading slash is dropped) |
| Loader.StripExtensionSpec | src/lib/image-loader.ts:23 | the extension regex removes exactly a final `.x` where `x` is non-empty without `/` or `.`, and otherwise leaves the path unchanged |
| Loader.StripExtensionOf | src/lib/image-loader.ts:23 | for `q.x` with `x` non-empty and free of `.` and `/`, stripping gives back `q` |
| Loader.LastDotPieceOf | src/lib/image-loader.ts:14 | the last dot-piece of `q.x` is `x` when `x` has no dot |
| Loader.KeepPngUrl | src/lib/image-loader.ts:15-20 | a local reference holding `.keep` whose last dot-piece reads `png` in any case is served at `/dist/` plus its path, with its own extension, and gets no query |
| Loader.WebpUrl | src/lib/image-loader.ts:22-32 | every other local reference free of `?` and `#` is served at `/dist/` plus the path without its final extension plus `.webp`; its query reads back as `w=<width>` and, exactly when quality is truthy, `q=<quality>`, and nothing else |
| Loader.ParamsReadBack | src/lib/image-loader.ts:27-32 | the query built from width and quality parses back into the pairs `(w, width)` and, only for a truthy quality, `(q, quality)` |
| Loader.ParamsShape | src/lib/image-loader.ts:27-30 | no parameter holds `&` or `?`, and the joined query holds no `#`, so the query cannot be misread |
| Loader.SplitUrlAtQuery | src/lib/image-loader.ts:32 | a URL parser, which ends the path at the first `?` or `#`, reads `path?query` back as `path` and `query` when the path holds neither `?` nor `#` and the query holds no `#` |
| Loader.PathBeforeQuery | src/lib/image-loader.ts:32 | whatever follows `?`, a URL parser reads a `?`- and `#`-free path before it as the path |
| Loader.QueryOfJoin | src/lib/image-loader.ts:32 | joining parts without `&` and reading the query back gives one pair per part, in order |
| Loader.PngExample | src/lib/__tests__/image-loader.test.ts:33-40 | `/images/test.png`, 800, 75 gives `/dist/images/test.webp?w=800&q=75` |
| Loader.KeepPngExample | src/lib/__tests__/image-loader.test.ts:42-49 | `/images/test.keep.png` gives `/dist/images/test.keep.png` |
| Loader.JpgWithoutSlashExample | src/lib/__tests__/image-loader.test.ts:51-58 | `images/test.jpg`, 800, 75 gives `/dist/images/test.webp?w=800&q=75` |
| Loader.NoQualityExample | src/lib/__tests__/image-loader.test.ts:62-69 | without quality the URL is `/dist/images/test.webp?w=800`, with no `q=` |
| Strings.DecimalRoundTrip | src/lib/image-loader.ts:27 | the decimal rendering of the width in the template literal loses nothing: reading it back gives the number |
| Strings.SplitJoin | src/lib/image-loader.ts:14 | `split` undoes a join by the same separator when no part holds it |
| Strings.JoinWithHasNo | src/lib/image-loader.ts:32 | a character that is not the separator and is in no part is not in the joined text |
| Strings.ContainsInJoin | src/lib/image-loader.ts:15 | `.includes` of a pattern without `/` on a joined path holds only if some segment includes it |
| NodePath.ExtName | src/lib/optimize-images.ts:62 | `extname` is empty or a dot followed by dot-free characters, and it is a proper suffix of the name |
| NodePath.BaseNameOfLoweredExt | src/lib/optimize-images.ts:62-63 | `basename(name, lowercased ext)` strips the extension exactly when it is already lower case, and otherwise returns the whole name (`Photo.PNG` stays `Photo.PNG`) |
| NodePath.JoinRelative | src/lib/optimize-images.ts:87-88 | `join(from, relative(from, to))` leads back to `to` |
| NodePath.RelativeUnder | src/lib/optimize-images.ts:87 | relative to an ancestor, a path is its remaining segments |
| NodePath.JoinNormal | src/lib/optimize-images.ts:88 | joining plain names only appends them |
| Transcoding.EnsureDir | src/lib/optimize-images.ts:19-25 | `ensureDirectoryExists` never touches files and never removes directories; it fails exactly when the directory does not end up existing, and then changes nothing; it creates only the directory and its ancestors |
| TranscodingProperties.EnsureDirIdempotent | src/lib/optimize-images.ts:19-25 | once `ensureDirectoryExists(d)` has succeeded, calling it again succeeds and changes nothing |
| TranscodingProperties.CleanRemovesDist | src/lib/optimize-images.ts:27-35 | `cleanDistDirectory` removes exactly the files and directories under `public/dist` and keeps everything else, or changes nothing when `rm` fails; cleaning twice is cleaning once |
| TranscodingProperties.ResetUndoesWalk | src/lib/optimize-images.ts:27-52 | starting from a state with nothing under `public/dist` in which `public/` exists, cleaning after a walk of `public/`, whatever it wrote or however it ended, gives back exactly the files and directories before the walk |
| TranscodingProperties.TwiceWithReset | src/lib/optimize-images.ts:27-52 | two runs of clean-then-walk over an unchanged `public/` tree end in the same files, directories, encoder calls and outcome |
| TranscodingProperties.SkippedFile | src/lib/optimize-images.ts:62-73 | a file whose lowercased extension is not in {.jpg, .jpeg, .webp, .png}, or is `.webp`, changes nothing, never reaches the encoder and has no planned write |
| TranscodingProperties.KeepPngCopied | src/lib/optimize-images.ts:77-81 | a `.png` whose name without extension holds `.keep` never reaches the encoder; it completes exactly when its directory exists or can be made and the copy succeeds, and then the mirrored path with its original name holds a verbatim copy; otherwise no file changes and the error escapes |
| TranscodingProperties.ConvertibleEncoded | src/lib/optimize-images.ts:83 | every other `.jpg`, `.jpeg` or `.png` reaches the encoder exactly once and never stops the walk; unless it is corrupt, its directory cannot be made or the encode fails, `<nameWithoutExt>.webp` in the mirrored directory holds its encoding, and otherwise no file changes |
| TranscodingProperties.ConvertEffect | src/lib/optimize-images.ts:95-128 | `convertToWebP` always completes, hands the file to `sharp`, writes the WebP file only when the file is sound, the directory exists or can be made and the encode succeeds, and creates no directory outside the target's ancestors |
| TranscodingProperties.OptionsRule | src/lib/optimize-images.ts:114-120 | encoder options always have quality 80; the library sets `lossless` and `nearLossless` (to true) exactly for `.png` and leaves them absent otherwise; the script always sets both to `ext === '.png'` |
| TranscodingProperties.FileWithinPlan | src/lib/optimize-images.ts:54-84 | whatever `processFile` does to a file stays within that file's planned writes: only planned paths change, to their planned artifacts, only planned directories appear, and only planned sources reach the encoder |
| TranscodingProperties.EntriesWithinPlan | src/lib/optimize-images.ts:41-43 | the loop over the entries, at any depth, stays within the concatenated plans of the entries |
| TranscodingProperties.WalkWithinPlan | src/lib/optimize-images.ts:37-60 | the whole walk never writes, encodes or creates anything its plan does not contain, and when it completes every planned source was encoded, in order |
| TranscodingProperties.WalkWithoutFatal | src/lib/optimize-images.ts:37-52 | on a readable tree where no copy or `mkdir` fails, the walk completes, hands exactly the planned sources to the encoder in `readdir` order, and leaves exactly the planned writes whose encodes do not fail; a per-file encode failure never stops the later entries |
| TranscodingProperties.EntriesWithoutFatal | src/lib/optimize-images.ts:41-43 | the same for the loop over one directory's entries |
| TranscodingProperties.FileWithoutFatal | src/lib/optimize-images.ts:54-84 | the same for one file |
| TranscodingProperties.WalkOutcome | src/lib/optimize-images.ts:44-51 | a walk completes, or in test mode rethrows, or otherwise exits with code 1; a top-level directory that cannot be read never completes (any depth: `WalkFatal`); the script, which has no test mode, never throws |
| TranscodingProperties.WalkFatal | src/lib/optimize-images.ts:37-93 | when some directory at any depth cannot be read, or some keep-PNG in the tree cannot be copied, the walk of the top directory does not complete: the error escapes the nested `catch` by rethrow or ends the process |
| TranscodingProperties.EntriesFatalStop | src/lib/optimize-images.ts:41-43 | the same for the loop over one directory's entries, whichever entry holds the failure |
| TranscodingProperties.EntryFatalStop | src/lib/optimize-images.ts:54-60 | the same for one entry: a subdirectory holding a failure, or a keep-PNG whose copy fails |
| TranscodingProperties.EntriesOutcome | src/lib/optimize-images.ts:41-43 | the loop over entries ends normally, with an exception, or (outside test mode) with `exit(1)` |
| TranscodingProperties.FileOutcome | src/lib/optimize-images.ts:54-93 | a file either completes or throws (a failed keep-PNG copy or `mkdir`); it never exits |
| TranscodingProperties.OutDirMirrors | src/lib/optimize-images.ts:87-88 | the output directory of a directory in `public/` is `public/dist/` followed by its path below `public/` |
| TranscodingProperties.PlanFileMirrors | src/lib/optimize-images.ts:106-112 | a file's planned write sits in `dist/` plus the file's directory below `public/`, under the source's own name (a copy) or as the name without extension plus `.webp` (an encoding) |
| TranscodingProperties.PlanMirrors | src/lib/optimize-images.ts:57-60 | every planned write of the walk, at any recursion depth, mirrors its source this way |
| TranscodingProperties.WalkStaysInDist | src/lib/optimize-images.ts:86-128 | the walk of a directory in `public/` leaves every file outside `public/dist` untouched |
| TranscodingProperties.SourcesAppend | src/lib/optimize-images.ts:41-43 | the encoder calls of two plans one after the other are the calls of the first, then those of the second |
| TranscodingProperties.ApplyAppend | src/lib/optimize-images.ts:41-43 | performing two plans one after the other is performing their concatenation |
| Transcoder.EnsureDirectoryExists | src/lib/optimize-images.ts:19-25 | the method ends in the state and the fault that `EnsureDir` gives and touches no encoder |
| Transcoder.CleanDistDirectory | src/lib/optimize-images.ts:27-35 | the method ends in the state `Clean` gives, whether or not `rm` fails |
| Transcoder.OptimizeImages | src/lib/optimize-images.ts:37-52 | the loop, recursion and catch end in the files, directories, encoder calls and outcome of `Walk` |
| Transcoder.ProcessFile | src/lib/optimize-images.ts:54-60 | a directory entry recurses, a file entry is processed; the effect is `ProcessEntry`'s |
| Transcoder.ProcessImageFile | src/lib/optimize-images.ts:62-84 | the skip, copy and convert branches end in the effect of `Transcoding.ProcessFile` |
| Transcoder.CopyPngFile | src/lib/optimize-images.ts:86-93 | the method ends in the state and outcome `Transcoding.CopyPngFile` gives |
| Transcoder.ConvertToWebP | src/lib/optimize-images.ts:95-128 | the method ends in the state, encoder calls and outcome `ConvertToWebp` gives |
| TranscoderScript.OptimizeImages | scripts/optimize-images.js:19-89 | the script's loop with its `continue` branches, recursion and outer catch ends in the state, encoder calls and outcome of `Walk` for the script variant: any error outside the per-file `try` exits with code 1 |
| TranscoderScript.CleanThenOptimize | scripts/optimize-images.js:92-107 | the driver ends in the state of walking `public/` after `dist` is cleaned, with `rm` failures swallowed |
| Agreement.PlannedCopyAgrees | src/lib/image-loader.ts:15-20 | for every keep-PNG that the walk of `public/` copies, the loader's URL for the source's own reference is the URL of the copy (which src/lib/optimize-images.ts:86-93 writes) |
| Agreement.PlannedEncodeAgrees | src/lib/image-loader.ts:22-24 | for every image that the walk of `public/` encodes, the loader's URL before `?` is the URL of the WebP file (which src/lib/optimize-images.ts:106-112 writes), provided its extension is written in lower case, no directory below `public/` on its way holds `.keep`, and no segment holds `?` or `#` |
| Agreement.MirroredCopyAgrees | src/lib/optimize-images.ts:86-93 | the same for any write that mirrors a keep-PNG source |
| Agreement.MirroredEncodeAgrees | src/lib/optimize-images.ts:106-112 | the same for any write that mirrors an encoded source, under the same three conditions |
| Agreement.WrittenFilesAgree | src/lib/optimize-images.ts:37-93 | every file the walk of `public/` writes lies under `public/dist/` and comes from a source under `public/`; a copy is at the loader's URL for its source, and an encoding is at the loader's URL before `?` under the three conditions |
| Agreement.KeepUrlAgrees | src/lib/image-loader.ts:15-20 | a keep-PNG at `public/dirs/name` is requested at `/dist/dirs/name` |
| Agreement.EncodedUrlAgrees | src/lib/image-loader.ts:22-32 | a convertible image at `public/dirs/name` with a lower-case extension, below directories without `.keep`, with no `?` or `#` in any segment, is requested at `/dist/dirs/<nameWithoutExt>.webp`, with only `w` and, for a truthy quality, `q` as parameters |
| Agreement.KeepPngName | src/lib/optimize-images.ts:78 | a name the transcoder keeps holds `.keep` and has a dot, and what follows its last dot lower-cases to `png`: the loader's own keep test on it |
| Agreement.ConvertibleName | src/lib/optimize-images.ts:62-83 | a convertible name with a lower-case extension is `stem.x`, its name without extension is `stem`, and `x` reads `png` only if the name lacks `.keep` |
| Agreement.KeepNotAcrossPng | src/lib/optimize-images.ts:78 | `.keep` in `stem.png` lies inside `stem` |
| Agreement.KeepInDirectoryName | src/lib/image-loader.ts:15 | only the loader looks for `.keep` anywhere in the path (the transcoder looks in the file name, src/lib/optimize-images.ts:78): the walk encodes `public/a.keep/x.png` to `dist/a.keep/x.webp` and writes nothing else, while the loader requests the URL of `dist/a.keep/x.png` |
| Agreement.UpperCaseExtension | src/lib/optimize-images.ts:62-63 | `basename` keeps an upper-case extension while the loader's regex (src/lib/image-loader.ts:23) strips any: the transcoder writes `dist/Photo.PNG.webp` for `public/Photo.PNG`, and the loader requests the URL of `dist/Photo.webp` |
| Agreement.ReservedCharInName | src/lib/image-loader.ts:22-32 | a name holding `?` breaks the agreement: the walk encodes `public/a?.png` to `dist/a?.webp`, whose URL is `/dist/a?.webp`, while a URL parser reads the path of the loader's URL for it as `/dist/a` |
| ImagePrefix.RemarkImagePrefix | src/lib/remark-image-prefix.ts:17-30 | after the pass every node of the tree has been rewritten exactly once by the visitor, in place |
| ImagePrefix.ImageNodePrefixed | src/lib/remark-image-prefix.ts:21-23 | a node of type `image` whose `url` starts with `/` gets `basePath + url` and nothing else changes |
| ImagePrefix.ImgElementPrefixed | src/lib/remark-image-prefix.ts:25-27 | an `element` with tag `img` whose `properties.src` starts with `/` gets `src := basePath + src`, and its other properties and fields are kept |
| ImagePrefix.OtherNodesUnchanged | src/lib/remark-image-prefix.ts:21-27 | every other node, including those whose URL is absent, relative or external, is left as it is |
| ImagePrefix.RewriteFrame | src/lib/remark-image-prefix.ts:19-28 | a visit writes only `url` and `properties.src`: type, tag, children and every other property stay, no field appears or vanishes, and each change is due to its rule |
| ImagePrefix.EmptyBasePath | src/lib/remark-image-prefix.ts:21-26 | with an empty base path the pass changes nothing |
| ImagePrefix.SecondPassPrefixesAgain | src/lib/remark-image-prefix.ts:19-23 | a second pass would prefix a URL twice when the base path starts with `/`, so a single visit per node is what keeps the prefix single |
| ImagePrefix.PassShape | src/lib/remark-image-prefix.ts:19-28 | after a pass no node is added or removed, every node keeps its type and children, and only nodes matching one of the two rules differ |
| Posts.SlugRoundTrip | src/lib/posts.ts:17 | a file name ends in `.md` exactly when its slug plus `.md` gives it back; other names are their own slug |
| Posts.SlugOfMd | src/lib/posts.ts:24-44 | the slug of `s.md` is `s`, so the file `getPostBySlug` reads for that slug is `s.md` again |
| Posts.SlugsOfListing | src/lib/posts.ts:15-18 | `getAllPostSlugs` fails exactly when `readdirSync` throws; otherwise it returns one slug per listed name, in listing order, with a single trailing `.md` removed and other names unchanged |
| Posts.NotesExample | src/lib/posts.ts:17 | `notes.txt` stays `notes.txt`, `hello.md` becomes `hello`, and `a.md.md` loses only one `.md` |
| Posts.SortByDateSpec | src/lib/posts.ts:37 | the sort orders posts with no post followed by one whose date is greater under string comparison, and it keeps every post as often as it occurs |
| Posts.InsertSorted | src/lib/posts.ts:37 | inserting a post into a date-descending list keeps it date-descending |
| Posts.InsertPermutes | src/lib/posts.ts:37 | inserting adds exactly the one post |
| Posts.LessTransitive | src/lib/posts.ts:37 | JavaScript's `<` on strings is transitive |
| Posts.LessTotal | src/lib/posts.ts:37 | of two different strings one is less than the other |
| Posts.LessAsymmetric | src/lib/posts.ts:37 | no two strings are each less than the other |
| Posts.GetAllPostsSpec | src/lib/posts.ts:20-40 | `getAllPosts` fails exactly when `readdirSync` of the posts directory throws or some listed file cannot be read or parsed; otherwise it returns one post per listed file, newest first, a permutation of the posts in listing order, each with the slug `getAllPostSlugs` gives its file |
| Posts.GetPostBySlug | src/lib/posts.ts:42-57 | `getPostBySlug` returns a post exactly when `slug.md` can be read and parsed, with the slug it was given, and returns `null` instead of throwing otherwise |
| Posts.ListedPostFoundBySlug | src/lib/posts.ts:24-44 | the post `getAllPosts` reads from a listed name ending in `.md` is among the posts it returns, and it is exactly what `getPostBySlug` returns for its slug |

## Left out

- Image bytes, compression and `sharp`'s internals are not modelled. The encoder is represented only by the files handed to it and the options it is given. Corrupt files and failing encodes are sets in the `Oracle`. The same holds for failing `copyFile` and `mkdir`.
- Logging, `async`/`await`, `process.exit`, `process.env.NODE_ENV` and `process.cwd()` are not modelled as such.
  - Every loop awaits each entry in turn, so the walk is sequential.
  - `process.exit(1)` becomes the outcome `Exited(1)`, and an exception becomes `Threw`.
  - The test-mode flag is part of `Variant.Library`.
  - The working directory is the constant `/app`.
- `readdir` is modelled as a snapshot. The listing of each directory is given up front as the tree. In the script's driver it is the listing after `public/dist` is cleaned.
- A partial `rm` or `mkdir` is modelled as "fails and changes nothing".
- Files and directories are in separate namespaces. A file cannot stand where a directory is to be made.
- `join(dir, name)` for a name `readdir` returned is `dir + [name]`. General `join` normalisation is modelled in `NodePath.Join`, and the output directory uses it.
- Distinct sources with the same target are resolved by the later write. For example, `a.jpg` and `a.png` both give `a.webp`. The model records this; it proves nothing beyond it.
- The script's per-file branches (scripts/optimize-images.js:31-83) are modelled by the library's `ProcessImageFile`, `CopyPngFile` and `ConvertToWebP` with `Variant.Script`, because their steps are the same.
  - The script's option object differs, so its `OptionsFor` case differs.
  - The script's `ensureDirectoryExists` (scripts/optimize-images.js:11-17) and `cleanDistDirectory` (scripts/optimize-images.js:92-99) have the library's bodies, so `Transcoder.EnsureDirectoryExists` and `Transcoder.CleanDistDirectory` model them too.
- scripts/optimize-images.ts is not part of this model. It is a command-line wrapper that only cleans, optimises and exits.
- `toLowerCase` is modelled for ASCII letters only. Unicode case mapping is not modelled.
- JavaScript compares strings by UTF-16 code units. The model compares characters by code point. The two orders differ only for characters outside the Basic Multilingual Plane.
- `gray-matter` and `readFileSync` in posts.ts are not modelled. Each file's title, date, excerpt and content are given as input strings. A file that cannot be read or parsed has no entry.
- YAML dates: an unquoted date in front matter is parsed into a `Date` object, which `<` compares numerically. The model treats every `date` as a string.
- The order of posts with equal dates is not modelled. The comparator never returns 0, so the engine's sort may order them either way. The model's insertion sort keeps them in listing order.
- `Posts.GetPostBySlug`: `path.join` would normalise a slug holding `/` or `..` to some other file. The model looks the slug up verbatim as `slug.md`.
- `getConfig()` and `unist-util-visit` are not modelled.
  - The base path is a parameter, and an undefined `basePath`, which a template literal would render as `undefined`, is left out.
  - The tree is an array holding each node once in visit order. Children are indices into it.
  - A node shared by two parents, which `visit` would reach twice, is left out.
- `ImagePrefix.MdNode` holds only the fields the plugin reads or writes. `properties` is a map from names to strings.
- Widths and qualities are `nat`. A JavaScript number can also be a fraction, `NaN` or a value such as `1e+21`, which the template literal would render differently; Next.js passes integers.
- Percent-encoding is not modelled. `Agreement.PublicUrl` joins the segments as they are: a segment holding `%` or a character a browser escapes would be requested under its escaped form, and the model compares the URLs as text.
- TranscodingProperties.WalkFatal does not cover a failed `mkdir` of a keep-PNG's output directory. Whether that `mkdir` is reached depends on the directories earlier entries created. `TranscodingProperties.KeepPngCopied` states the failure for one file.
- The JSX pages, layout, components and `next.config.*` are not part of this model. They are UI and framework configuration.
