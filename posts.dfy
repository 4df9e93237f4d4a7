/**
 * The post listing of src/lib/posts.ts: slugs are file names without a final
 * `.md`, every post of the directory is loaded and sorted newest first by its
 * `date` string, and a single post is looked up by slug. The directory listing
 * and the parsed front matter of each file are given as input.
 */
module Posts {
  import opened Wrappers
  import opened Strings

  const MdSuffix := ".md"

  /** What `matter(readFileSync(file))` yields for a file: its front matter fields and its body. */
  datatype Matter = Matter(title: string, date: string, excerpt: string, content: string)

  datatype BlogPost = BlogPost(slug: string, title: string, date: string, excerpt: string, content: string)

  /**
   * `content/posts`: the names `readdirSync` lists, in listing order (`None`
   * when `readdirSync` throws, the directory being missing or unreadable), and
   * the parse of each file that can be read and parsed (a name without an entry
   * fails to read or to parse).
   */
  datatype PostsDir = PostsDir(listing: Option<seq<string>>, files: map<string, Matter>)

  // ---- slugs ----

  /** `fileName.replace(/\.md$/, '')`: one trailing `.md` is dropped. */
  function SlugOf(fileName: string): string {
    if EndsWith(fileName, MdSuffix) then fileName[..|fileName| - |MdSuffix|] else fileName
  }

  /** `getAllPostSlugs()`: `None` where `readdirSync` throws, which nothing catches. */
  function GetAllPostSlugs(d: PostsDir): Option<seq<string>> {
    match d.listing
    case None => None
    case Some(names) => Some(seq(|names|, i requires 0 <= i < |names| => SlugOf(names[i])))
  }

  /** The slug of `s.md` is `s`, and the file a slug names is `slug.md`. */
  lemma SlugOfMd(s: string)
    ensures SlugOf(s + MdSuffix) == s && SlugOf(s + MdSuffix) + MdSuffix == s + MdSuffix
  {
    assert (s + MdSuffix)[|s|..] == MdSuffix;
    assert (s + MdSuffix)[..|s|] == s;
  }

  /** Names that do not end in `.md` are their own slug; those that do are found again from it. */
  lemma SlugRoundTrip(fileName: string)
    ensures EndsWith(fileName, MdSuffix) <==> SlugOf(fileName) + MdSuffix == fileName
    ensures !EndsWith(fileName, MdSuffix) ==> SlugOf(fileName) == fileName
  {
    if EndsWith(fileName, MdSuffix) {
      assert fileName[..|fileName| - 3] + MdSuffix == fileName;
    } else {
      assert |SlugOf(fileName) + MdSuffix| > |fileName|;
    }
  }

  /** The slugs fail exactly when the listing does; otherwise there is one slug per listed name, in listing order. */
  lemma SlugsOfListing(d: PostsDir)
    ensures GetAllPostSlugs(d).Some? <==> d.listing.Some?
    ensures d.listing.Some? ==>
              var names := d.listing.value;
              var slugs := GetAllPostSlugs(d).value;
              && |slugs| == |names|
              && forall i :: 0 <= i < |names| ==>
                   slugs[i] == SlugOf(names[i])
                   && (EndsWith(names[i], MdSuffix) ==> slugs[i] + MdSuffix == names[i])
                   && (!EndsWith(names[i], MdSuffix) ==> slugs[i] == names[i])
  {
    if d.listing.Some? {
      var names := d.listing.value;
      forall i | 0 <= i < |names| {
        SlugRoundTrip(names[i]);
      }
    }
  }

  lemma NotesExample()
    ensures SlugOf("notes.txt") == "notes.txt" && SlugOf("hello.md") == "hello"
    ensures SlugOf("a.md.md") == "a.md"
  {
    assert "notes.txt"[6..] != MdSuffix by {
      assert "notes.txt"[7] == 'x';
    }
    SlugOfMd("hello");
    assert "hello" + MdSuffix == "hello.md";
    SlugOfMd("a.md");
    assert "a.md" + MdSuffix == "a.md.md";
  }

  // ---- ordering by date ----

  /** JavaScript's `<` on strings: lexicographic by character, a proper prefix first. */
  predicate Less(a: string, b: string)
    decreases |a|
  {
    if |a| == 0 then |b| > 0
    else if |b| == 0 then false
    else if a[0] != b[0] then a[0] < b[0]
    else Less(a[1..], b[1..])
  }

  lemma {:induction false} LessIrreflexive(a: string)
    ensures !Less(a, a)
    decreases |a|
  {
    if |a| > 0 {
      LessIrreflexive(a[1..]);
    }
  }

  lemma {:induction false} LessAsymmetric(a: string, b: string)
    ensures Less(a, b) ==> !Less(b, a)
    decreases |a|
  {
    if |a| > 0 && |b| > 0 && a[0] == b[0] {
      LessAsymmetric(a[1..], b[1..]);
    }
  }

  lemma {:induction false} LessTotal(a: string, b: string)
    ensures a == b || Less(a, b) || Less(b, a)
    decreases |a|
  {
    if |a| > 0 && |b| > 0 && a[0] == b[0] {
      LessTotal(a[1..], b[1..]);
      if a[1..] == b[1..] {
        assert a == [a[0]] + a[1..] && b == [b[0]] + b[1..];
      }
    }
  }

  lemma {:induction false} LessTransitive(a: string, b: string, c: string)
    ensures Less(a, b) && Less(b, c) ==> Less(a, c)
    decreases |a|
  {
    if |a| > 0 && |b| > 0 && |c| > 0 && a[0] == b[0] == c[0] {
      LessTransitive(a[1..], b[1..], c[1..]);
    }
  }

  /** Under the comparator `(a, b) => a.date < b.date ? 1 : -1`, `a` may stay before `b`. */
  predicate NewerOrSame(a: BlogPost, b: BlogPost) {
    !Less(a.date, b.date)
  }

  /** Newest first: no post is followed by a strictly newer one. */
  predicate ByDateDescending(ps: seq<BlogPost>) {
    forall i, j :: 0 <= i < j < |ps| ==> NewerOrSame(ps[i], ps[j])
  }

  /** Insert `p` before the first post older than it. */
  function Insert(p: BlogPost, ps: seq<BlogPost>): seq<BlogPost>
    decreases |ps|
  {
    if |ps| == 0 then [p]
    else if NewerOrSame(p, ps[0]) then [p] + ps
    else [ps[0]] + Insert(p, ps[1..])
  }

  /** `.sort((a, b) => (a.date < b.date ? 1 : -1))`, as an insertion sort. */
  function SortByDate(ps: seq<BlogPost>): seq<BlogPost>
    decreases |ps|
  {
    if |ps| == 0 then [] else Insert(ps[0], SortByDate(ps[1..]))
  }

  /** "Newer or same" is transitive. */
  lemma NewerOrSameTransitive(a: BlogPost, b: BlogPost, c: BlogPost)
    requires NewerOrSame(a, b) && NewerOrSame(b, c)
    ensures NewerOrSame(a, c)
  {
    LessTotal(a.date, b.date);
    LessTotal(b.date, c.date);
    LessTransitive(c.date, b.date, a.date);
    LessAsymmetric(a.date, c.date);
    LessTransitive(a.date, c.date, b.date);
    LessTransitive(b.date, a.date, c.date);
  }

  lemma {:induction false} InsertPermutes(p: BlogPost, ps: seq<BlogPost>)
    ensures multiset(Insert(p, ps)) == multiset(ps) + multiset{p}
    decreases |ps|
  {
    if |ps| > 0 && !NewerOrSame(p, ps[0]) {
      InsertPermutes(p, ps[1..]);
      assert ps == [ps[0]] + ps[1..];
    }
  }

  lemma {:induction false} InsertSorted(p: BlogPost, ps: seq<BlogPost>)
    requires ByDateDescending(ps)
    ensures ByDateDescending(Insert(p, ps))
    decreases |ps|
  {
    if |ps| == 0 {
    } else if NewerOrSame(p, ps[0]) {
      var r := [p] + ps;
      forall i, j | 0 <= i < j < |r|
        ensures NewerOrSame(r[i], r[j])
      {
        if i == 0 && j > 1 {
          NewerOrSameTransitive(p, ps[0], ps[j - 1]);
        }
      }
    } else {
      InsertSorted(p, ps[1..]);
      HeadBeforeInsert(p, ps);
      var tail := Insert(p, ps[1..]);
      var r := [ps[0]] + tail;
      forall i, j | 0 <= i < j < |r|
        ensures NewerOrSame(r[i], r[j])
      {
        if i == 0 {
          assert r[j] == tail[j - 1];
        } else {
          assert r[i] == tail[i - 1] && r[j] == tail[j - 1];
        }
      }
    }
  }

  /** When `p` goes past the first post, that post is newer than or as new as everything after it. */
  lemma HeadBeforeInsert(p: BlogPost, ps: seq<BlogPost>)
    requires |ps| > 0 && ByDateDescending(ps) && !NewerOrSame(p, ps[0])
    ensures forall j :: 0 <= j < |Insert(p, ps[1..])| ==> NewerOrSame(ps[0], Insert(p, ps[1..])[j])
  {
    InsertPermutes(p, ps[1..]);
    var tail := Insert(p, ps[1..]);
    LessAsymmetric(p.date, ps[0].date);
    LessTotal(p.date, ps[0].date);
    forall j | 0 <= j < |tail|
      ensures NewerOrSame(ps[0], tail[j])
    {
      assert tail[j] in multiset(ps[1..]) + multiset{p};
      if tail[j] != p {
        assert tail[j] in ps[1..];
        var k :| 0 <= k < |ps[1..]| && ps[1..][k] == tail[j];
        assert ps[k + 1] == tail[j];
      }
    }
  }

  /** The sort orders the posts newest first and keeps each of them, as often as it occurs. */
  lemma SortByDateSpec(ps: seq<BlogPost>)
    ensures ByDateDescending(SortByDate(ps))
    ensures multiset(SortByDate(ps)) == multiset(ps)
  {
    SortSorted(ps);
    SortPermutes(ps);
  }

  lemma {:induction false} SortSorted(ps: seq<BlogPost>)
    ensures ByDateDescending(SortByDate(ps))
    decreases |ps|
  {
    if |ps| > 0 {
      SortSorted(ps[1..]);
      InsertSorted(ps[0], SortByDate(ps[1..]));
    }
  }

  lemma {:induction false} SortPermutes(ps: seq<BlogPost>)
    ensures multiset(SortByDate(ps)) == multiset(ps)
    decreases |ps|
  {
    if |ps| > 0 {
      var rest := SortByDate(ps[1..]);
      SortPermutes(ps[1..]);
      InsertPermutes(ps[0], rest);
      assert ps == [ps[0]] + ps[1..];
    }
  }

  // ---- loading posts ----

  /** The post read from the listed file `fileName`. */
  function PostOf(fileName: string, m: Matter): BlogPost {
    BlogPost(SlugOf(fileName), m.title, m.date, m.excerpt, m.content)
  }

  /** Every listed file can be read and parsed. */
  predicate AllReadable(names: seq<string>, files: map<string, Matter>) {
    forall i :: 0 <= i < |names| ==> names[i] in files
  }

  /** The posts in listing order, before the sort. */
  function Loaded(names: seq<string>, files: map<string, Matter>): seq<BlogPost>
    requires AllReadable(names, files)
  {
    seq(|names|, i requires 0 <= i < |names| => PostOf(names[i], files[names[i]]))
  }

  /** `getAllPosts()`: `None` where `readdirSync`, a read or a parse throws, which nothing catches. */
  function GetAllPosts(d: PostsDir): Option<seq<BlogPost>> {
    match d.listing
    case None => None
    case Some(names) =>
      if AllReadable(names, d.files) then Some(SortByDate(Loaded(names, d.files))) else None
  }

  /**
   * `getAllPosts` fails exactly when the directory cannot be listed or some
   * listed file cannot be read or parsed; otherwise it returns one post per
   * listed file, with the listing's slug rule, newest first.
   */
  lemma GetAllPostsSpec(d: PostsDir)
    ensures GetAllPosts(d).Some? <==>
              d.listing.Some? && forall i :: 0 <= i < |d.listing.value| ==> d.listing.value[i] in d.files
    ensures GetAllPosts(d).Some? ==>
              var names := d.listing.value;
              var ps := GetAllPosts(d).value;
              && ByDateDescending(ps)
              && multiset(ps) == multiset(Loaded(names, d.files))
              && |ps| == |names|
              && forall p :: p in ps ==> exists i :: 0 <= i < |names| && p.slug == GetAllPostSlugs(d).value[i]
  {
    if d.listing.Some? && AllReadable(d.listing.value, d.files) {
      var names := d.listing.value;
      var loaded := Loaded(names, d.files);
      var ps := SortByDate(loaded);
      SortByDateSpec(loaded);
      assert |ps| == |multiset(ps)| == |multiset(loaded)| == |loaded|;
      forall p | p in ps
        ensures exists i :: 0 <= i < |names| && p.slug == GetAllPostSlugs(d).value[i]
      {
        assert p in multiset(loaded);
        var i :| 0 <= i < |loaded| && loaded[i] == p;
        assert p.slug == GetAllPostSlugs(d).value[i];
      }
    }
  }

  /** `getPostBySlug(slug)`: reads `slug.md`; `None` (the caught `null`) when that read or parse fails. */
  function GetPostBySlug(d: PostsDir, slug: string): (r: Option<BlogPost>)
    ensures r.Some? <==> slug + MdSuffix in d.files
    ensures r.Some? ==> r.value.slug == slug
  {
    var fileName := slug + MdSuffix;
    if fileName in d.files then
      var m := d.files[fileName];
      Some(BlogPost(slug, m.title, m.date, m.excerpt, m.content))
    else None
  }

  /**
   * The post `getAllPosts` reads from a listed file whose name ends in `.md` is
   * among the posts it returns, and it is what `getPostBySlug` returns for its slug.
   */
  lemma ListedPostFoundBySlug(d: PostsDir, i: nat)
    requires GetAllPosts(d).Some? && d.listing.Some?
    requires i < |d.listing.value| && EndsWith(d.listing.value[i], MdSuffix)
    ensures var name := d.listing.value[i];
            var p := PostOf(name, d.files[name]);
            p in GetAllPosts(d).value && GetPostBySlug(d, p.slug) == Some(p)
  {
    var names := d.listing.value;
    var p := PostOf(names[i], d.files[names[i]]);
    SortByDateSpec(Loaded(names, d.files));
    assert Loaded(names, d.files)[i] == p;
    assert p in multiset(GetAllPosts(d).value);
    SlugRoundTrip(names[i]);
  }
}
