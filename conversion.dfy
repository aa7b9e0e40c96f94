/** `ConvertInputFile`: a parsed BlogML document becomes the `posts`, `tags` and
    `posts_tags` arrays of the Ghost import format.
      - categories are put in a dictionary keyed by their `id`; the tag made of the
        category at position i has id i (0-based);
      - posts are numbered 1, 2, ... in document order by a running counter;
      - each `ref` inside a post's nested `categories` element gives one
        `{post_id, tag_id}` link, in order.
    A duplicate category id (rejected by `ToDictionary`) and a reference to an
    undeclared id (`KeyNotFoundException`) make the conversion fail. */
module Conversion {
  import opened Results
  import opened Slugs
  import opened EpochTime

  /** A 128-bit `Guid`; the conversion only compares them. */
  type Guid = g: int | 0 <= g < 0x1_0000_0000_0000_0000_0000_0000_0000_0000

  // ---------------------------------------------------------------------------
  // The parsed BlogML document

  /** `<category id="..."><title>...</title></category>` */
  datatype CategoryElement = CategoryElement(id: Guid, title: string)

  /** `<post date-created="..." date-modified="...">` with its `title`, `content` and
      optional nested `categories` element listing the `ref` of each `category`. */
  datatype PostElement = PostElement(
    dateCreated: DateTimeTicks,
    dateModified: DateTimeTicks,
    title: string,
    content: string,
    categoryRefs: Option<seq<Guid>>)

  datatype BlogMLDocument = BlogMLDocument(categories: seq<CategoryElement>, posts: seq<PostElement>)

  // ---------------------------------------------------------------------------
  // The converted data

  datatype Tag = Tag(id: int, name: string, slug: string, description: string)

  /** A Ghost post; the `image`, `meta_title` and `meta_description` fields are JSON
      `null`, modelled as `None`. */
  datatype Post = Post(
    id: int,
    title: string,
    slug: string,
    markdown: string,
    html: string,
    image: Option<string>,
    featured: int,
    page: int,
    status: string,
    language: string,
    metaTitle: Option<string>,
    metaDescription: Option<string>,
    authorId: int,
    createdAt: int,
    createdBy: int,
    updatedAt: int,
    updatedBy: int,
    publishedAt: int,
    publishedBy: int)

  datatype PostTag = PostTag(postId: int, tagId: int)

  datatype ConvertedData = ConvertedData(posts: seq<Post>, tags: seq<Tag>, postsTags: seq<PostTag>)

  datatype ConvertError =
    | DuplicateCategoryId(id: Guid)    // `ToDictionary` meets the same key twice
    | UnknownCategoryRef(ref: Guid)    // the dictionary lookup `categories[ref]` misses

  // ---------------------------------------------------------------------------
  // Categories

  function Ids(cats: seq<CategoryElement>): (ids: seq<Guid>)
    ensures |ids| == |cats|
    ensures forall i :: 0 <= i < |cats| ==> ids[i] == cats[i].id
  {
    seq(|cats|, i requires 0 <= i < |cats| => cats[i].id)
  }

  predicate DistinctIds(cats: seq<CategoryElement>) {
    forall i, j :: 0 <= i < j < |cats| ==> cats[i].id != cats[j].id
  }

  /** The tag made of the category at `position`. */
  function CategoryTag(removeDiacritics: string -> string, c: CategoryElement, position: nat): Tag {
    Tag(position, c.title, GetSlugFromTitle(removeDiacritics, c.title), "")
  }

  /** The `Select((p, s) => ...).ToDictionary(...)` pipeline: categories are added
      in document order, and the first one whose id is already a key fails. */
  function CategoryTable(removeDiacritics: string -> string, cats: seq<CategoryElement>)
    : (r: Result<map<Guid, Tag>, ConvertError>)
    ensures r.Success? ==> forall g :: g in r.value ==> 0 <= r.value[g].id < |cats|
    decreases |cats|
  {
    if cats == [] then Success(map[])
    else
      var n := |cats| - 1;
      match CategoryTable(removeDiacritics, cats[..n])
      case Failure(e) => Failure(e)
      case Success(m) =>
        if cats[n].id in m then Failure(DuplicateCategoryId(cats[n].id))
        else Success(m[cats[n].id := CategoryTag(removeDiacritics, cats[n], n)])
  }

  lemma IdsSnoc(cats: seq<CategoryElement>)
    requires cats != []
    ensures Ids(cats) == Ids(cats[..|cats| - 1]) + [cats[|cats| - 1].id]
  {
  }

  lemma DistinctIdsSnoc(cats: seq<CategoryElement>)
    requires cats != []
    ensures DistinctIds(cats) <==>
      DistinctIds(cats[..|cats| - 1]) && cats[|cats| - 1].id !in Ids(cats[..|cats| - 1])
  {
    var n := |cats| - 1;
    if cats[n].id in Ids(cats[..n]) {
      var i :| 0 <= i < n && Ids(cats[..n])[i] == cats[n].id;
      assert cats[i].id == cats[n].id;
    }
  }

  /** The dictionary exists exactly when the ids are distinct; it then maps the id of
      the category at position i to the tag with id i, and has no other keys. */
  lemma {:induction false} CategoryTableSpec(removeDiacritics: string -> string, cats: seq<CategoryElement>)
    ensures CategoryTable(removeDiacritics, cats).Success? <==> DistinctIds(cats)
    ensures CategoryTable(removeDiacritics, cats).Success? ==>
      forall g :: g in CategoryTable(removeDiacritics, cats).value <==> g in Ids(cats)
    ensures CategoryTable(removeDiacritics, cats).Success? ==>
      forall i :: 0 <= i < |cats| ==>
        && cats[i].id in CategoryTable(removeDiacritics, cats).value
        && CategoryTable(removeDiacritics, cats).value[cats[i].id] == CategoryTag(removeDiacritics, cats[i], i)
    decreases |cats|
  {
    if cats != [] {
      var n := |cats| - 1;
      var init := cats[..n];
      CategoryTableSpec(removeDiacritics, init);
      DistinctIdsSnoc(cats);
      IdsSnoc(cats);
      var t := CategoryTable(removeDiacritics, init);
      if t.Success? && cats[n].id !in t.value {
        var m := t.value[cats[n].id := CategoryTag(removeDiacritics, cats[n], n)];
        assert CategoryTable(removeDiacritics, cats) == Success(m);
        forall i | 0 <= i < |cats|
          ensures cats[i].id in m && m[cats[i].id] == CategoryTag(removeDiacritics, cats[i], i)
        {
          if i < n {
            assert init[i] == cats[i];
          }
        }
      }
    }
  }

  /** When it fails, the error names the first category whose id was already seen. */
  lemma {:induction false} CategoryTableFailure(removeDiacritics: string -> string, cats: seq<CategoryElement>)
    requires CategoryTable(removeDiacritics, cats).Failure?
    ensures exists j ::
      && 0 < j < |cats|
      && CategoryTable(removeDiacritics, cats).error == DuplicateCategoryId(cats[j].id)
      && cats[j].id in Ids(cats[..j])
      && DistinctIds(cats[..j])
    decreases |cats|
  {
    var n := |cats| - 1;
    var init := cats[..n];
    var t := CategoryTable(removeDiacritics, init);
    if t.Failure? {
      CategoryTableFailure(removeDiacritics, init);
      var j :| 0 < j < n && t.error == DuplicateCategoryId(init[j].id) && init[j].id in Ids(init[..j]) && DistinctIds(init[..j]);
      assert init[..j] == cats[..j];
    } else {
      CategoryTableSpec(removeDiacritics, init);
      assert cats[..n] == init;
    }
  }

  /** `tags = categories.Values.ToList()`, in declaration order. */
  function Tags(removeDiacritics: string -> string, cats: seq<CategoryElement>): (tags: seq<Tag>)
    ensures |tags| == |cats|
    ensures forall i :: 0 <= i < |cats| ==> tags[i] == CategoryTag(removeDiacritics, cats[i], i)
  {
    seq(|cats|, i requires 0 <= i < |cats| => CategoryTag(removeDiacritics, cats[i], i))
  }

  // ---------------------------------------------------------------------------
  // Posts

  /** The anonymous post object built for the post numbered `id`. */
  function PostOf(removeDiacritics: string -> string, p: PostElement, id: int): Post {
    Post(
      id := id,
      title := p.title,
      slug := GetSlugFromTitle(removeDiacritics, p.title),
      markdown := p.content,
      html := p.content,
      image := None,
      featured := 0,
      page := 0,
      status := "published",
      language := "en_US",
      metaTitle := None,
      metaDescription := None,
      authorId := 1,
      createdAt := GetEpochTime(p.dateCreated),
      createdBy := 1,
      updatedAt := GetEpochTime(p.dateModified),
      updatedBy := 1,
      publishedAt := GetEpochTime(p.dateCreated),
      publishedBy := 1)
  }

  /** The posts, numbered from 1 in document order. */
  function ConvertedPosts(removeDiacritics: string -> string, posts: seq<PostElement>): (r: seq<Post>)
    ensures |r| == |posts|
    ensures forall i :: 0 <= i < |posts| ==> r[i] == PostOf(removeDiacritics, posts[i], i + 1)
  {
    seq(|posts|, i requires 0 <= i < |posts| => PostOf(removeDiacritics, posts[i], i + 1))
  }

  /** The links of one post's references, `Select(x => new { post_id, tag_id =
      categories[ref].id })`, enumerated in order until a reference misses. */
  function ResolveRefs(table: map<Guid, Tag>, refs: seq<Guid>, postId: int): (r: Result<seq<PostTag>, ConvertError>)
    ensures r.Success? ==> |r.value| == |refs|
    ensures r.Success? ==> forall k :: 0 <= k < |r.value| ==> r.value[k].postId == postId
    decreases |refs|
  {
    if refs == [] then Success([])
    else
      var n := |refs| - 1;
      match ResolveRefs(table, refs[..n], postId)
      case Failure(e) => Failure(e)
      case Success(links) =>
        if refs[n] in table then Success(links + [PostTag(postId, table[refs[n]].id)])
        else Failure(UnknownCategoryRef(refs[n]))
  }

  /** Resolution succeeds exactly when every reference is a key, with one link per
      reference, in order; otherwise the error names the first reference that misses. */
  lemma {:induction false} ResolveRefsSpec(table: map<Guid, Tag>, refs: seq<Guid>, postId: int)
    ensures ResolveRefs(table, refs, postId).Success? <==> forall j :: 0 <= j < |refs| ==> refs[j] in table
    ensures ResolveRefs(table, refs, postId).Success? ==>
      && |ResolveRefs(table, refs, postId).value| == |refs|
      && forall j :: 0 <= j < |refs| ==>
        refs[j] in table && ResolveRefs(table, refs, postId).value[j] == PostTag(postId, table[refs[j]].id)
    ensures ResolveRefs(table, refs, postId).Failure? ==>
      exists j ::
        && 0 <= j < |refs|
        && refs[j] !in table
        && ResolveRefs(table, refs, postId).error == UnknownCategoryRef(refs[j])
        && forall k :: 0 <= k < j ==> refs[k] in table
    decreases |refs|
  {
    if refs != [] {
      var n := |refs| - 1;
      ResolveRefsSpec(table, refs[..n], postId);
      assert forall j :: 0 <= j < n ==> refs[..n][j] == refs[j];
    }
  }

  /** A post with no nested `categories` element has no links. */
  function PostLinks(table: map<Guid, Tag>, p: PostElement, postId: int): (r: Result<seq<PostTag>, ConvertError>)
    ensures r.Success? ==> forall k :: 0 <= k < |r.value| ==> r.value[k].postId == postId
  {
    match p.categoryRefs
    case None => Success([])
    case Some(refs) => ResolveRefs(table, refs, postId)
  }

  /** `tagsBelongingToPost` after the posts `posts`, numbered from 1: the links of
      each post appended in order, or the first lookup that missed. */
  function PostTags(table: map<Guid, Tag>, posts: seq<PostElement>): (r: Result<seq<PostTag>, ConvertError>)
    ensures r.Success? ==> forall k :: 0 <= k < |r.value| ==> 1 <= r.value[k].postId <= |posts|
    decreases |posts|
  {
    if posts == [] then Success([])
    else
      var n := |posts| - 1;
      match PostTags(table, posts[..n])
      case Failure(e) => Failure(e)
      case Success(links) =>
        match PostLinks(table, posts[n], n + 1)
        case Failure(e) => Failure(e)
        case Success(more) => Success(links + more)
  }

  /** The whole conversion, as a function: the dictionary first, then the posts. */
  function Convert(removeDiacritics: string -> string, doc: BlogMLDocument): (r: Result<ConvertedData, ConvertError>)
    ensures r.Success? ==> |r.value.posts| == |doc.posts| && |r.value.tags| == |doc.categories|
  {
    match CategoryTable(removeDiacritics, doc.categories)
    case Failure(e) => Failure(e)
    case Success(table) =>
      match PostTags(table, doc.posts)
      case Failure(e) => Failure(e)
      case Success(links) =>
        Success(ConvertedData(
          ConvertedPosts(removeDiacritics, doc.posts),
          Tags(removeDiacritics, doc.categories),
          links))
  }

  // ---------------------------------------------------------------------------
  // One more reference, one more post

  lemma ResolveRefsStep(table: map<Guid, Tag>, refs: seq<Guid>, j: nat, postId: int, links: seq<PostTag>)
    requires j < |refs|
    requires ResolveRefs(table, refs[..j], postId) == Success(links)
    ensures ResolveRefs(table, refs[..j + 1], postId) ==
      if refs[j] in table then Success(links + [PostTag(postId, table[refs[j]].id)])
      else Failure(UnknownCategoryRef(refs[j]))
  {
    assert refs[..j + 1][..j] == refs[..j];
  }

  lemma ConvertedPostsStep(removeDiacritics: string -> string, posts: seq<PostElement>, k: nat)
    requires k < |posts|
    ensures ConvertedPosts(removeDiacritics, posts[..k + 1]) ==
      ConvertedPosts(removeDiacritics, posts[..k]) + [PostOf(removeDiacritics, posts[k], k + 1)]
  {
  }

  lemma PostTagsStep(table: map<Guid, Tag>, posts: seq<PostElement>, k: nat, links: seq<PostTag>)
    requires k < |posts|
    requires PostTags(table, posts[..k]) == Success(links)
    ensures PostTags(table, posts[..k + 1]) ==
      match PostLinks(table, posts[k], k + 1)
      case Failure(e) => Failure(e)
      case Success(more) => Success(links + more)
  {
    assert posts[..k + 1][..k] == posts[..k];
  }

  // ---------------------------------------------------------------------------
  // A failed lookup ends the enumeration: failure of a prefix is failure of the whole

  lemma {:induction false} ResolveRefsPrefixFailure(table: map<Guid, Tag>, refs: seq<Guid>, k: nat, postId: int)
    requires k <= |refs|
    requires ResolveRefs(table, refs[..k], postId).Failure?
    ensures ResolveRefs(table, refs, postId) == ResolveRefs(table, refs[..k], postId)
    decreases |refs| - k
  {
    if k < |refs| {
      var n := |refs| - 1;
      assert refs[..n][..k] == refs[..k];
      ResolveRefsPrefixFailure(table, refs[..n], k, postId);
      assert refs[..|refs|] == refs;
    } else {
      assert refs[..k] == refs;
    }
  }

  lemma {:induction false} PostTagsPrefixFailure(table: map<Guid, Tag>, posts: seq<PostElement>, k: nat)
    requires k <= |posts|
    requires PostTags(table, posts[..k]).Failure?
    ensures PostTags(table, posts) == PostTags(table, posts[..k])
    decreases |posts| - k
  {
    if k < |posts| {
      var n := |posts| - 1;
      assert posts[..n][..k] == posts[..k];
      PostTagsPrefixFailure(table, posts[..n], k);
    } else {
      assert posts[..k] == posts;
    }
  }

  // ---------------------------------------------------------------------------
  // The conversion as the source runs it

  /** `tagsBelongingToPost.AddRange(tags)`: the lazily selected links of one post are
      appended one at a time; the first lookup that misses throws. */
  method AddPostLinks(table: map<Guid, Tag>, refs: seq<Guid>, postId: int, tagsBelongingToPost: seq<PostTag>)
    returns (r: Result<seq<PostTag>, ConvertError>)
    ensures r == match ResolveRefs(table, refs, postId)
                 case Failure(e) => Failure(e)
                 case Success(added) => Success(tagsBelongingToPost + added)
  {
    var links := tagsBelongingToPost;
    ghost var added: seq<PostTag> := [];
    var j := 0;
    while j < |refs|
      invariant j <= |refs|
      invariant links == tagsBelongingToPost + added
      invariant ResolveRefs(table, refs[..j], postId) == Success(added)
    {
      var g := refs[j];
      ResolveRefsStep(table, refs, j, postId, added);
      if g !in table {
        ResolveRefsPrefixFailure(table, refs, j + 1, postId);
        return Failure(UnknownCategoryRef(g));
      }
      var link := PostTag(postId, table[g].id);
      links := links + [link];
      added := added + [link];
      j := j + 1;
    }
    assert refs[..j] == refs;
    return Success(links);
  }

  /** `ConvertInputFile`: the category dictionary, then the `foreach` over the posts
      with the running `postId` counter, appending to `convertedPosts` and to
      `tagsBelongingToPost`; a missed lookup ends the run. */
  method ConvertInputFile(removeDiacritics: string -> string, doc: BlogMLDocument)
    returns (r: Result<ConvertedData, ConvertError>)
    ensures r == Convert(removeDiacritics, doc)
  {
    var categories := CategoryTable(removeDiacritics, doc.categories);
    if categories.Failure? {
      return Failure(categories.error);
    }
    var table := categories.value;

    var convertedPosts: seq<Post> := [];
    var tagsBelongingToPost: seq<PostTag> := [];
    var postId := 0;  // also the number of posts already converted
    while postId < |doc.posts|
      invariant postId <= |doc.posts|
      invariant convertedPosts == ConvertedPosts(removeDiacritics, doc.posts[..postId])
      invariant PostTags(table, doc.posts[..postId]) == Success(tagsBelongingToPost)
    {
      var post := doc.posts[postId];
      PostTagsStep(table, doc.posts, postId, tagsBelongingToPost);
      ConvertedPostsStep(removeDiacritics, doc.posts, postId);
      postId := postId + 1;
      convertedPosts := convertedPosts + [PostOf(removeDiacritics, post, postId)];

      if post.categoryRefs.Some? {
        var added := AddPostLinks(table, post.categoryRefs.value, postId, tagsBelongingToPost);
        if added.Failure? {
          PostTagsPrefixFailure(table, doc.posts, postId);
          return Failure(added.error);
        }
        tagsBelongingToPost := added.value;
      } else {
        assert tagsBelongingToPost + [] == tagsBelongingToPost;
      }
    }
    assert doc.posts[..postId] == doc.posts;
    return Success(ConvertedData(convertedPosts, Tags(removeDiacritics, doc.categories), tagsBelongingToPost));
  }
}
