/**
 * The blog's content index. The posts directory is given as the list of
 * its entries, each with the front matter already parsed and the body
 * text; `None` stands for a directory that does not exist. The index
 * lists post metadata newest first, lists the slugs, and looks one post up
 * by its slug. Reading-time estimation and date parsing are parameters.
 */
module Blog {
  import opened Wrappers

  /** The front matter of one file; `None` is a field the author left out. */
  datatype FrontMatter = FrontMatter(
    title: Option<string>,
    date: Option<string>,
    excerpt: Option<string>,
    tags: Option<seq<string>>)

  /** One directory entry: file name, front matter and body. */
  datatype ContentFile = ContentFile(name: string, data: FrontMatter, body: string)

  /** The posts directory: `None` when it does not exist, else its entries in listing order. */
  type Directory = Option<seq<ContentFile>>

  /** The reading-time label computed from a body. */
  type ReadingTime = string -> string

  /** The millisecond timestamp of a date string; `None` where the date is invalid (NaN). */
  type Timestamp = string -> Option<int>

  datatype PostMeta = PostMeta(
    slug: string,
    title: string,
    date: string,
    excerpt: string,
    tags: seq<string>,
    readingTime: string)

  datatype Post = Post(
    slug: string,
    title: string,
    date: string,
    excerpt: string,
    tags: seq<string>,
    readingTime: string,
    content: string)

  const Extension: string := ".mdx"

  /** `name.endsWith(".mdx")`: the name is some slug followed by `.mdx`. */
  predicate IsMdx(name: string)
    ensures IsMdx(name) ==> |name| >= |Extension| && name[..|name| - |Extension|] + Extension == name
  {
    |name| >= |Extension| && name[|name| - |Extension|..] == Extension
  }

  /** `name.replace(/\.mdx$/, "")`: only a final `.mdx` is removed. */
  function StripMdx(name: string): (slug: string)
    ensures IsMdx(name) ==> slug + Extension == name
    ensures !IsMdx(name) ==> slug == name
  {
    if IsMdx(name) then name[..|name| - |Extension|] else name
  }

  /** Appending `.mdx` to any slug and stripping it again gives the slug back. */
  lemma SlugRoundTrip(slug: string)
    ensures IsMdx(slug + Extension)
    ensures StripMdx(slug + Extension) == slug
  {
    assert (slug + Extension)[|slug|..] == Extension;
    assert (slug + Extension)[..|slug|] == slug;
  }

  /** `field || fallback`: a missing or empty string is falsy and falls back. */
  function OrElse(field: Option<string>, fallback: string): (r: string)
    ensures field.Some? && field.value != "" ==> r == field.value
    ensures field.None? || field == Some("") ==> r == fallback
    ensures r == "" ==> fallback == ""
  {
    if field.Some? && field.value != "" then field.value else fallback
  }

  /** The post built from a file, with the defaults for missing front-matter fields. */
  function PostOf(f: ContentFile, slug: string, readingTime: ReadingTime): (p: Post)
    ensures p.slug == slug && p.content == f.body
    ensures slug != "" ==> p.title != ""
    ensures f.data.title.Some? && f.data.title.value != "" ==> p.title == f.data.title.value
    ensures f.data.title.None? || f.data.title == Some("") ==> p.title == slug
    ensures f.data.date.Some? && f.data.date.value != "" ==> p.date == f.data.date.value
    ensures f.data.date.None? || f.data.date == Some("") ==> p.date == ""
    ensures f.data.excerpt.Some? && f.data.excerpt.value != "" ==> p.excerpt == f.data.excerpt.value
    ensures f.data.excerpt.None? || f.data.excerpt == Some("") ==> p.excerpt == ""
    ensures f.data.tags.Some? ==> p.tags == f.data.tags.value
    ensures f.data.tags.None? ==> p.tags == []
    ensures p.readingTime == readingTime(f.body)
  {
    Post(slug,
         OrElse(f.data.title, slug),
         OrElse(f.data.date, ""),
         OrElse(f.data.excerpt, ""),
         if f.data.tags.Some? then f.data.tags.value else [],
         readingTime(f.body),
         f.body)
  }

  /** The metadata part of a post. */
  function MetaOf(p: Post): PostMeta {
    PostMeta(p.slug, p.title, p.date, p.excerpt, p.tags, p.readingTime)
  }

  /** The entries whose name ends in `.mdx`, in listing order. */
  function MdxFiles(files: seq<ContentFile>): (r: seq<ContentFile>)
    ensures |r| <= |files|
    ensures forall f :: f in r <==> f in files && IsMdx(f.name)
  {
    if files == [] then []
    else (if IsMdx(files[0].name) then [files[0]] else []) + MdxFiles(files[1..])
  }

  /** A single entry is kept exactly when its name ends in `.mdx`. */
  lemma MdxFilesOfOne(f: ContentFile)
    ensures MdxFiles([f]) == if IsMdx(f.name) then [f] else []
  {
  }

  /**
   * The filter works entry by entry: filtering a concatenation concatenates
   * the filtered parts, so the kept entries stay in listing order with their
   * multiplicity.
   */
  lemma {:induction false} MdxFilesAppend(a: seq<ContentFile>, b: seq<ContentFile>)
    ensures MdxFiles(a + b) == MdxFiles(a) + MdxFiles(b)
  {
    if a == [] {
      assert a + b == b;
    } else {
      assert (a + b)[0] == a[0];
      assert (a + b)[1..] == a[1..] + b;
      MdxFilesAppend(a[1..], b);
    }
  }

  /** The metadata of each file, in the same order (the `map` step of `getAllPosts`). */
  function Metas(files: seq<ContentFile>, readingTime: ReadingTime): (r: seq<PostMeta>)
    ensures |r| == |files|
    ensures forall i :: 0 <= i < |files| && IsMdx(files[i].name) ==> r[i].slug + Extension == files[i].name
  {
    seq(|files|, i requires 0 <= i < |files| => MetaOf(PostOf(files[i], StripMdx(files[i].name), readingTime)))
  }

  /** The `map` step of `getAllPostSlugs`: each `.mdx` name with its extension removed. */
  function Slugs(files: seq<ContentFile>): (r: seq<string>)
    ensures |r| == |files|
    ensures forall i :: 0 <= i < |files| && IsMdx(files[i].name) ==> r[i] + Extension == files[i].name
  {
    seq(|files|, i requires 0 <= i < |files| => StripMdx(files[i].name))
  }

  predicate Dated(p: PostMeta, time: Timestamp) {
    time(p.date).Some?
  }

  predicate AllDated(s: seq<PostMeta>, time: Timestamp) {
    forall i :: 0 <= i < |s| ==> Dated(s[i], time)
  }

  /** `x` comes strictly before `y` under the comparator `time(b) - time(a)`: both dates valid, x newer. */
  predicate Newer(x: PostMeta, y: PostMeta, time: Timestamp) {
    Dated(x, time) && Dated(y, time) && time(x.date).value > time(y.date).value
  }

  predicate NotOlder(x: PostMeta, y: PostMeta, time: Timestamp) {
    Dated(x, time) && Dated(y, time) && time(x.date).value >= time(y.date).value
  }

  /** Newest first: no post is older than one after it. */
  predicate SortedNewestFirst(s: seq<PostMeta>, time: Timestamp) {
    forall i, j :: 0 <= i < j < |s| ==> NotOlder(s[i], s[j], time)
  }

  /** Places `x` after every post that is not older than it. */
  function Insert(x: PostMeta, s: seq<PostMeta>, time: Timestamp): (r: seq<PostMeta>)
    ensures multiset(r) == multiset(s) + multiset{x}
  {
    if s == [] then [x]
    else if Newer(x, s[0], time) then [x] + s
    else
      assert s == [s[0]] + s[1..];
      [s[0]] + Insert(x, s[1..], time)
  }

  /**
   * The `sort` step of `getAllPosts`: a stable sort, newest first, under the
   * comparator `(a, b) => time(b) - time(a)`.
   */
  function SortNewestFirst(s: seq<PostMeta>, time: Timestamp): (r: seq<PostMeta>)
    ensures multiset(r) == multiset(s)
  {
    if s == [] then []
    else
      assert s == s[..|s| - 1] + [s[|s| - 1]];
      Insert(s[|s| - 1], SortNewestFirst(s[..|s| - 1], time), time)
  }

  lemma PermutationKeepsDated(s: seq<PostMeta>, t: seq<PostMeta>, time: Timestamp)
    requires AllDated(s, time) && multiset(t) == multiset(s)
    ensures AllDated(t, time)
  {
    forall i | 0 <= i < |t|
      ensures Dated(t[i], time)
    {
      assert t[i] in multiset(s);
      var k :| 0 <= k < |s| && s[k] == t[i];
    }
  }

  lemma {:induction false} InsertKeepsOrder(x: PostMeta, s: seq<PostMeta>, time: Timestamp)
    requires Dated(x, time) && AllDated(s, time) && SortedNewestFirst(s, time)
    ensures SortedNewestFirst(Insert(x, s, time), time)
  {
    if s != [] && !Newer(x, s[0], time) {
      var t := Insert(x, s[1..], time);
      InsertKeepsOrder(x, s[1..], time);
      forall j | 0 <= j < |t|
        ensures NotOlder(s[0], t[j], time)
      {
        assert t[j] in multiset(t);
        if t[j] != x {
          assert t[j] in multiset(s[1..]);
          var k :| 0 <= k < |s[1..]| && s[1..][k] == t[j];
          assert s[k + 1] == t[j];
        }
      }
    }
  }

  /** With every date valid, the sorted list is newest first. */
  lemma {:induction false} SortIsNewestFirst(s: seq<PostMeta>, time: Timestamp)
    requires AllDated(s, time)
    ensures SortedNewestFirst(SortNewestFirst(s, time), time)
  {
    if s != [] {
      var init := s[..|s| - 1];
      SortIsNewestFirst(init, time);
      PermutationKeepsDated(init, SortNewestFirst(init, time), time);
      InsertKeepsOrder(s[|s| - 1], SortNewestFirst(init, time), time);
    }
  }

  /** The posts of `s` whose date is exactly `d`, in order. */
  function WithDate(s: seq<PostMeta>, time: Timestamp, d: int): seq<PostMeta> {
    if s == [] then []
    else (if time(s[0].date) == Some(d) then [s[0]] else []) + WithDate(s[1..], time, d)
  }

  lemma {:induction false} WithDateAppend(s: seq<PostMeta>, x: PostMeta, time: Timestamp, d: int)
    ensures WithDate(s + [x], time, d) == WithDate(s, time, d) + (if time(x.date) == Some(d) then [x] else [])
  {
    if s != [] {
      assert (s + [x])[1..] == s[1..] + [x];
      WithDateAppend(s[1..], x, time, d);
    }
  }

  lemma {:induction false} WithDateOfOlder(s: seq<PostMeta>, time: Timestamp, d: int)
    requires forall i :: 0 <= i < |s| ==> Dated(s[i], time) && time(s[i].date).value < d
    ensures WithDate(s, time, d) == []
  {
    if s != [] {
      WithDateOfOlder(s[1..], time, d);
    }
  }

  lemma WithDateCons(y: PostMeta, s: seq<PostMeta>, time: Timestamp, d: int)
    ensures WithDate([y] + s, time, d) == (if time(y.date) == Some(d) then [y] else []) + WithDate(s, time, d)
  {
    assert ([y] + s)[1..] == s;
  }

  lemma {:induction false} InsertIsStable(x: PostMeta, s: seq<PostMeta>, time: Timestamp, d: int)
    requires Dated(x, time) && AllDated(s, time) && SortedNewestFirst(s, time)
    ensures WithDate(Insert(x, s, time), time, d)
         == WithDate(s, time, d) + (if time(x.date) == Some(d) then [x] else [])
  {
    if s == [] {
    } else if Newer(x, s[0], time) {
      WithDateCons(x, s, time, d);
      if time(x.date) == Some(d) {
        forall i | 0 <= i < |s|
          ensures Dated(s[i], time) && time(s[i].date).value < d
        {
          if i > 0 { assert NotOlder(s[0], s[i], time); }
        }
        WithDateOfOlder(s, time, d);
      }
    } else {
      var t := Insert(x, s[1..], time);
      InsertIsStable(x, s[1..], time, d);
      WithDateCons(s[0], t, time, d);
      WithDateCons(s[0], s[1..], time, d);
      assert s == [s[0]] + s[1..];
    }
  }

  /**
   * The sort is stable: the posts that share any one date keep their listing
   * order. With sortedness and permutation this fixes the result uniquely.
   */
  lemma {:induction false} SortIsStable(s: seq<PostMeta>, time: Timestamp, d: int)
    requires AllDated(s, time)
    ensures WithDate(SortNewestFirst(s, time), time, d) == WithDate(s, time, d)
  {
    if s != [] {
      var init, last := s[..|s| - 1], s[|s| - 1];
      assert s == init + [last];
      SortIsStable(init, time, d);
      SortIsNewestFirst(init, time);
      PermutationKeepsDated(init, SortNewestFirst(init, time), time);
      InsertIsStable(last, SortNewestFirst(init, time), time, d);
      WithDateAppend(init, last, time, d);
    }
  }

  /** The metadata of the `.mdx` files before sorting. */
  function Unsorted(files: seq<ContentFile>, readingTime: ReadingTime): seq<PostMeta> {
    Metas(MdxFiles(files), readingTime)
  }

  /**
   * `getAllPosts`: empty when the directory is missing; otherwise one entry
   * per `.mdx` file, reordered newest first.
   */
  function AllPosts(dir: Directory, readingTime: ReadingTime, time: Timestamp): (r: seq<PostMeta>)
    ensures dir.None? ==> r == []
    ensures dir.Some? ==> multiset(r) == multiset(Unsorted(dir.value, readingTime))
  {
    match dir
    case None => []
    case Some(files) => SortNewestFirst(Unsorted(files, readingTime), time)
  }

  /**
   * `getAllPostSlugs`: empty when the directory is missing; otherwise, in
   * listing order, the slug of each `.mdx` file, which gives the file name
   * back when `.mdx` is appended.
   */
  function AllPostSlugs(dir: Directory): (r: seq<string>)
    ensures dir.None? ==> r == []
    ensures dir.Some? ==> |r| == |MdxFiles(dir.value)|
    ensures dir.Some? ==> forall i :: 0 <= i < |r| ==> r[i] + Extension == MdxFiles(dir.value)[i].name
  {
    match dir
    case None => []
    case Some(files) =>
      var mdx := MdxFiles(files);
      assert forall i :: 0 <= i < |mdx| ==> IsMdx(mdx[i].name) by {
        forall i | 0 <= i < |mdx| ensures IsMdx(mdx[i].name) {
          assert mdx[i] in mdx;
        }
      }
      Slugs(mdx)
  }

  /** The first entry with the given name. */
  function FindFile(files: seq<ContentFile>, name: string): (r: Option<ContentFile>)
    ensures r.None? <==> forall f :: f in files ==> f.name != name
    ensures r.Some? ==> r.value in files && r.value.name == name
  {
    if files == [] then None
    else if files[0].name == name then Some(files[0])
    else FindFile(files[1..], name)
  }

  /**
   * `getPostBySlug`: `null` when the directory or the file `<slug>.mdx` is
   * missing; otherwise the post read from that file, whose slug is the
   * argument itself.
   */
  function PostBySlug(dir: Directory, slug: string, readingTime: ReadingTime): (r: Option<Post>)
    ensures r.None? <==> dir.None? || forall f :: f in dir.value ==> f.name != slug + Extension
    ensures r.Some? ==> r.value.slug == slug
    ensures r.Some? ==> exists f :: f in dir.value && f.name == slug + Extension && r.value == PostOf(f, slug, readingTime)
  {
    match dir
    case None => None
    case Some(files) =>
      match FindFile(files, slug + Extension)
      case None => None
      case Some(f) => Some(PostOf(f, slug, readingTime))
  }

  /** The slugs of a list of posts, in order. */
  function SlugsOf(posts: seq<PostMeta>): seq<string> {
    seq(|posts|, i requires 0 <= i < |posts| => posts[i].slug)
  }

  lemma SlugsOfAppend(s: seq<PostMeta>, t: seq<PostMeta>)
    ensures SlugsOf(s + t) == SlugsOf(s) + SlugsOf(t)
  {
  }

  /** Reordering posts reorders their slugs the same way. */
  lemma {:induction false} PermutationKeepsSlugs(s: seq<PostMeta>, t: seq<PostMeta>)
    requires multiset(s) == multiset(t)
    ensures multiset(SlugsOf(s)) == multiset(SlugsOf(t))
  {
    if s == [] {
      assert |t| == |multiset(t)| == 0;
    } else {
      var x := s[0];
      assert x in multiset(t);
      var k :| 0 <= k < |t| && t[k] == x;
      var rest := t[..k] + t[k + 1..];
      assert t == t[..k] + [x] + t[k + 1..];
      assert s == [x] + s[1..];
      assert multiset(t) == multiset(t[..k]) + multiset{x} + multiset(t[k + 1..]);
      assert multiset(s) == multiset{x} + multiset(s[1..]);
      assert multiset(rest) == multiset(t) - multiset{x};
      assert multiset(s[1..]) == multiset(s) - multiset{x};
      PermutationKeepsSlugs(s[1..], rest);
      SlugsOfAppend(t[..k] + [x], t[k + 1..]);
      SlugsOfAppend(t[..k], [x]);
      SlugsOfAppend(t[..k], t[k + 1..]);
      SlugsOfAppend([x], s[1..]);
    }
  }

  /** Before sorting, the posts carry the slug list itself, in listing order. */
  lemma UnsortedSlugs(files: seq<ContentFile>, readingTime: ReadingTime)
    ensures SlugsOf(Unsorted(files, readingTime)) == AllPostSlugs(Some(files))
  {
  }

  lemma PostSlugsPermuted(files: seq<ContentFile>, readingTime: ReadingTime, time: Timestamp)
    ensures multiset(SlugsOf(AllPosts(Some(files), readingTime, time))) == multiset(AllPostSlugs(Some(files)))
  {
    UnsortedSlugs(files, readingTime);
    PermutationKeepsSlugs(AllPosts(Some(files), readingTime, time), Unsorted(files, readingTime));
  }

  /**
   * The post list and the slug list describe the same files: they have the
   * same length, and the slugs of the posts are the slug list up to order.
   */
  lemma PostsAndSlugsAgree(dir: Directory, readingTime: ReadingTime, time: Timestamp)
    ensures |AllPosts(dir, readingTime, time)| == |AllPostSlugs(dir)|
    ensures multiset(SlugsOf(AllPosts(dir, readingTime, time))) == multiset(AllPostSlugs(dir))
  {
    if dir.Some? {
      PostSlugsPermuted(dir.value, readingTime, time);
      var posts, slugs := AllPosts(dir, readingTime, time), AllPostSlugs(dir);
      assert |posts| == |SlugsOf(posts)| == |multiset(SlugsOf(posts))| == |multiset(slugs)| == |slugs|;
    }
  }

  /** Posts whose slugs are a permutation of a slug list share their slugs with it, both ways. */
  lemma PermutedSlugsShareMembers(posts: seq<PostMeta>, slugs: seq<string>)
    requires multiset(SlugsOf(posts)) == multiset(slugs)
    ensures forall p :: p in posts ==> p.slug in slugs
    ensures forall s :: s in slugs ==> exists p :: p in posts && p.slug == s
  {
    forall p | p in posts
      ensures p.slug in slugs
    {
      var i :| 0 <= i < |posts| && posts[i] == p;
      assert SlugsOf(posts)[i] == p.slug;
      assert p.slug in multiset(SlugsOf(posts));
    }
    forall s | s in slugs
      ensures exists p :: p in posts && p.slug == s
    {
      assert s in multiset(SlugsOf(posts));
      var i :| 0 <= i < |posts| && SlugsOf(posts)[i] == s;
      assert posts[i] in posts;
    }
  }

  /** Hence every post's slug is listed, and every listed slug belongs to a post. */
  lemma PostsAndSlugsShareMembers(dir: Directory, readingTime: ReadingTime, time: Timestamp)
    ensures forall p :: p in AllPosts(dir, readingTime, time) ==> p.slug in AllPostSlugs(dir)
    ensures forall s :: s in AllPostSlugs(dir) ==> exists p :: p in AllPosts(dir, readingTime, time) && p.slug == s
  {
    PostsAndSlugsAgree(dir, readingTime, time);
    PermutedSlugsShareMembers(AllPosts(dir, readingTime, time), AllPostSlugs(dir));
  }

  /** Every slug the index lists can be looked up, and the lookup answers with that slug. */
  lemma EverySlugHasPost(dir: Directory, slug: string, readingTime: ReadingTime)
    requires slug in AllPostSlugs(dir)
    ensures PostBySlug(dir, slug, readingTime).Some?
    ensures PostBySlug(dir, slug, readingTime).value.slug == slug
  {
    var slugs := AllPostSlugs(dir);
    var i :| 0 <= i < |slugs| && slugs[i] == slug;
    assert MdxFiles(dir.value)[i] in MdxFiles(dir.value);
  }

  /**
   * List and lookup apply the same defaults: the metadata of the post found
   * for a listed slug is one of the entries of the post list.
   */
  lemma LookupAgreesWithList(dir: Directory, slug: string, readingTime: ReadingTime, time: Timestamp)
    requires slug in AllPostSlugs(dir)
    ensures PostBySlug(dir, slug, readingTime).Some?
    ensures MetaOf(PostBySlug(dir, slug, readingTime).value) in AllPosts(dir, readingTime, time)
  {
    EverySlugHasPost(dir, slug, readingTime);
    var f := FindFile(dir.value, slug + Extension).value;
    var post := PostOf(f, slug, readingTime);
    assert PostBySlug(dir, slug, readingTime).value == post;
    SlugRoundTrip(slug);
    var mdx := MdxFiles(dir.value);
    assert f in mdx;
    var i :| 0 <= i < |mdx| && mdx[i] == f;
    var unsorted := Unsorted(dir.value, readingTime);
    assert StripMdx(mdx[i].name) == slug;
    assert unsorted[i] == MetaOf(post);
    assert unsorted[i] in multiset(AllPosts(dir, readingTime, time));
  }
  /** No two entries share a name, as in any real directory listing. */
  predicate DistinctNames(files: seq<ContentFile>) {
    forall i, j :: 0 <= i < j < |files| ==> files[i].name != files[j].name
  }

  /** With distinct names, looking an entry up by its own name finds that entry. */
  lemma {:induction false} FindUnique(files: seq<ContentFile>, f: ContentFile)
    requires DistinctNames(files) && f in files
    ensures FindFile(files, f.name) == Some(f)
  {
    if files[0] != f {
      var j :| 0 <= j < |files| && files[j] == f;
      assert files[0].name != f.name;
      assert files[1..][j - 1] == f;
      FindUnique(files[1..], f);
    }
  }

  /** Before sorting, each post's entry is exactly the metadata the lookup finds for its slug. */
  lemma UnsortedEntryMatchesLookup(files: seq<ContentFile>, readingTime: ReadingTime, i: int)
    requires DistinctNames(files) && 0 <= i < |Unsorted(files, readingTime)|
    ensures PostBySlug(Some(files), Unsorted(files, readingTime)[i].slug, readingTime).Some?
    ensures MetaOf(PostBySlug(Some(files), Unsorted(files, readingTime)[i].slug, readingTime).value)
      == Unsorted(files, readingTime)[i]
  {
    var mdx := MdxFiles(files);
    var f := mdx[i];
    assert f in mdx;
    var slug := StripMdx(f.name);
    assert slug + Extension == f.name;
    FindUnique(files, f);
  }

  lemma SortedPostWasListed(files: seq<ContentFile>, readingTime: ReadingTime, time: Timestamp, p: PostMeta)
    requires p in AllPosts(Some(files), readingTime, time)
    ensures p in Unsorted(files, readingTime)
  {
    assert p in multiset(AllPosts(Some(files), readingTime, time));
  }

  /**
   * In a listing without repeated names, every entry of the post list is
   * exactly the metadata of the post the lookup returns for its slug: list
   * and lookup agree field by field.
   */
  lemma ListedPostMatchesLookup(dir: Directory, readingTime: ReadingTime, time: Timestamp, p: PostMeta)
    requires dir.Some? && DistinctNames(dir.value)
    requires p in AllPosts(dir, readingTime, time)
    ensures PostBySlug(dir, p.slug, readingTime).Some?
    ensures MetaOf(PostBySlug(dir, p.slug, readingTime).value) == p
  {
    SortedPostWasListed(dir.value, readingTime, time, p);
    var unsorted := Unsorted(dir.value, readingTime);
    var i :| 0 <= i < |unsorted| && unsorted[i] == p;
    UnsortedEntryMatchesLookup(dir.value, readingTime, i);
  }


  /** With every listed date valid, `getAllPosts` is newest first. */
  lemma AllPostsNewestFirst(dir: Directory, readingTime: ReadingTime, time: Timestamp)
    requires dir.Some? ==> AllDated(Unsorted(dir.value, readingTime), time)
    ensures SortedNewestFirst(AllPosts(dir, readingTime, time), time)
  {
    if dir.Some? {
      SortIsNewestFirst(Unsorted(dir.value, readingTime), time);
    }
  }

  /** With every listed date valid, posts sharing a date stay in directory-listing order. */
  lemma AllPostsStable(dir: Directory, readingTime: ReadingTime, time: Timestamp, d: int)
    requires dir.Some? && AllDated(Unsorted(dir.value, readingTime), time)
    ensures WithDate(AllPosts(dir, readingTime, time), time, d) == WithDate(Unsorted(dir.value, readingTime), time, d)
  {
    SortIsStable(Unsorted(dir.value, readingTime), time, d);
  }
}
