/** The blog post index (src/hooks/useBlogPosts.ts): the post files found by
    the bundler's glob, the metadata shown for each of them, and the lookup
    of a post by its slug. */
module BlogPosts {
  import opened Common

  /** The frontmatter fields the blog reads, each of the type the blog
      declares for it (`as string`, `as string[]`); an absent field is
      `None`. */
  datatype Frontmatter = Frontmatter(
    title: Option<string>, date: Option<string>, description: Option<string>, tags: Option<seq<string>>)

  /** `{}` */
  const EmptyFrontmatter := Frontmatter(None, None, None, None)

  /** A compiled post: its component (named, since it is code the bundler
      produces) and its frontmatter, which may be missing. */
  datatype PostModule = PostModule(component: string, frontmatter: Option<Frontmatter>)

  /** One entry of `import.meta.glob(...)`: the file path and its module.
      The entries come in the order of the object's keys, which are
      distinct. */
  datatype PostFile = PostFile(path: string, compiled: PostModule)

  datatype PostMeta = PostMeta(slug: string, title: string, date: string, description: string, tags: seq<string>)

  /** The post found by slug: `{ Component, frontmatter }`. */
  datatype Post = Post(component: string, frontmatter: Frontmatter)

  /** `path.split('/').pop()`: the part after the last `/`. */
  function LastSegment(path: string): (r: string)
    ensures '/' !in r
  {
    var parts := Split(path, '/');
    parts[|parts| - 1]
  }

  /** `path.split('/').pop()?.replace('.mdx', '') || ''`: the file name with
      its first `.mdx` removed (`pop` always finds a part, and an empty
      result stays empty). */
  function SlugOf(path: string): (slug: string)
    ensures '/' !in slug
  {
    var name := LastSegment(path);
    var i := IndexOf(name, ".mdx", 0);
    assert i >= 0 ==> forall c :: c in name[..i] + name[i + 4..] ==> c in name;
    ReplaceFirst(name, ".mdx", "")
  }

  /** JavaScript's `s || d` on a string that may be missing: `d` when `s` is
      absent or empty. */
  function OrString(s: Option<string>, d: string): (r: string)
    ensures r == d || (s.Some? && r == s.value != "")
  {
    if s.Some? && s.value != "" then s.value else d
  }

  /** `module.frontmatter || {}` */
  function FrontmatterOf(m: PostModule): Frontmatter
  {
    if m.frontmatter.Some? then m.frontmatter.value else EmptyFrontmatter
  }

  /** The metadata of one post (lines 19-28). */
  function MetaOf(f: PostFile): (r: PostMeta)
    ensures r.slug == SlugOf(f.path)
  {
    var slug := SlugOf(f.path);
    var fm := FrontmatterOf(f.compiled);
    PostMeta(slug, OrString(fm.title, slug), OrString(fm.date, ""), OrString(fm.description, ""),
             if fm.tags.Some? then fm.tags.value else [])
  }

  /** `getAllPosts()` before its sort by date: one entry per post file, in
      the glob's order. */
  function AllPosts(files: seq<PostFile>): (r: seq<PostMeta>)
    ensures |r| == |files|
    ensures forall i :: 0 <= i < |files| ==> r[i] == MetaOf(files[i])
  {
    seq(|files|, (i: int) requires 0 <= i < |files| => MetaOf(files[i]))
  }

  /** Missing frontmatter gives the defaults: the slug as title, empty date
      and description, and no tags; given fields are taken as they are,
      except that an empty title, date or description also falls back. */
  lemma MetaDefaults(f: PostFile)
    ensures var m, fm := MetaOf(f), FrontmatterOf(f.compiled);
      && (f.compiled.frontmatter.None? ==> m == PostMeta(SlugOf(f.path), SlugOf(f.path), "", "", []))
      && (m.title == if fm.title.Some? && fm.title.value != "" then fm.title.value else m.slug)
      && (m.date == if fm.date.Some? then fm.date.value else "")
      && (m.description == if fm.description.Some? then fm.description.value else "")
      && (m.tags == if fm.tags.Some? then fm.tags.value else [])
  {
  }

  /** The suffix a post file of `slug` ends with. */
  function SlugSuffix(slug: string): string
  {
    "/" + slug + ".mdx"
  }

  /** `Object.keys(postFiles).find(p => p.endsWith('/' + slug + '.mdx'))`:
      the position of the first matching path. */
  function FindPath(files: seq<PostFile>, slug: string): (r: Option<nat>)
    ensures r.None? <==> forall i :: 0 <= i < |files| ==> !EndsWith(files[i].path, SlugSuffix(slug))
    ensures r.Some? ==> (r.value < |files| && EndsWith(files[r.value].path, SlugSuffix(slug))
      && forall i :: 0 <= i < r.value ==> !EndsWith(files[i].path, SlugSuffix(slug)))
  {
    if files == [] then None
    else if EndsWith(files[0].path, SlugSuffix(slug)) then Some(0)
    else
      match FindPath(files[1..], slug)
      case None => None
      case Some(i) => Some(i + 1)
  }

  /** `getPostBySlug(slug)`: the module of the first matching path, with
      `{}` for missing frontmatter, or `null`. A found path is never empty
      and its module is always an object, so the source's second test never
      fails. */
  function PostBySlug(files: seq<PostFile>, slug: string): (r: Option<Post>)
    ensures r.None? <==> forall i :: 0 <= i < |files| ==> !EndsWith(files[i].path, SlugSuffix(slug))
    ensures r.Some? ==> exists i :: (0 <= i < |files| && EndsWith(files[i].path, SlugSuffix(slug))
      && (forall j :: 0 <= j < i ==> !EndsWith(files[j].path, SlugSuffix(slug)))
      && r.value == Post(files[i].compiled.component, FrontmatterOf(files[i].compiled)))
  {
    match FindPath(files, slug)
    case None => None
    case Some(i) => Some(Post(files[i].compiled.component, FrontmatterOf(files[i].compiled)))
  }

  /** A post without frontmatter is returned with `{}`. */
  lemma PostWithoutFrontmatter(files: seq<PostFile>, slug: string, i: nat)
    requires i < |files| && EndsWith(files[i].path, SlugSuffix(slug))
    requires forall j :: 0 <= j < i ==> !EndsWith(files[j].path, SlugSuffix(slug))
    requires files[i].compiled.frontmatter.None?
    ensures PostBySlug(files, slug) == Some(Post(files[i].compiled.component, EmptyFrontmatter))
  {
    FirstPathAt(files, slug, i);
  }

  lemma {:induction false} FirstPathAt(files: seq<PostFile>, slug: string, i: nat)
    requires i < |files| && EndsWith(files[i].path, SlugSuffix(slug))
    requires forall j :: 0 <= j < i ==> !EndsWith(files[j].path, SlugSuffix(slug))
    ensures FindPath(files, slug) == Some(i)
  {
    if i > 0 {
      assert forall j :: 0 <= j < i - 1 ==> files[1..][j] == files[j + 1];
      FirstPathAt(files[1..], slug, i - 1);
    }
  }

  // ---------------------------------------------------------------------------
  // Slugs and lookup agree

  /** The part after the last `/` of `p + "/" + x`, for `x` free of `/`, is `x`. */
  lemma {:induction false} LastSegmentOf(p: string, x: string)
    requires '/' !in x
    ensures LastSegment(p + "/" + x) == x
    decreases |p|
  {
    var s := p + "/" + x;
    assert s[|p|] == '/';
    var i := FirstIndexOf(s, '/');
    LastSegmentRest(s);
    if i == |p| {
      assert s[i + 1..] == x;
      assert Split(x, '/') == [x];
    } else {
      assert s[i + 1..] == p[i + 1..] + "/" + x;
      LastSegmentOf(p[i + 1..], x);
    }
  }

  /** The first `/` of a path does not change its last segment. */
  lemma LastSegmentRest(s: string)
    requires '/' in s
    ensures LastSegment(s) == LastSegment(s[FirstIndexOf(s, '/') + 1..])
  {
    SplitLastPart(s, '/');
  }

  /** A post file `dir/name.mdx` whose name has no `/` and no earlier
      `.mdx` gets the slug `name`. */
  lemma SlugOfPostFile(dir: string, name: string)
    requires '/' !in name
    requires forall i :: 0 <= i < |name| ==> !OccursAt(name + ".mdx", ".mdx", i)
    ensures SlugOf(dir + SlugSuffix(name)) == name
  {
    assert dir + SlugSuffix(name) == dir + "/" + (name + ".mdx");
    LastSegmentOf(dir, name + ".mdx");
    var s := name + ".mdx";
    assert OccursAt(s, ".mdx", |name|);
    assert IndexOf(s, ".mdx", 0) == |name|;
    assert s[..|name|] == name;
  }

  /** Every post listed by a slug of that form is found again by its slug
      (possibly as an earlier file with the same name in another folder). */
  lemma ListedPostsFound(files: seq<PostFile>, i: nat, dir: string, name: string)
    requires i < |files| && files[i].path == dir + SlugSuffix(name)
    requires '/' !in name
    requires forall k :: 0 <= k < |name| ==> !OccursAt(name + ".mdx", ".mdx", k)
    ensures AllPosts(files)[i].slug == name
    ensures PostBySlug(files, name).Some?
  {
    SlugOfPostFile(dir, name);
    EndsWithSuffix(dir, SlugSuffix(name));
  }

  lemma EndsWithSuffix(p: string, q: string)
    ensures EndsWith(p + q, q)
  {
    assert (p + q)[|p + q| - |q|..] == q;
  }
}
