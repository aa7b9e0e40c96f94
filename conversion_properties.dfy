/** What `ConvertInputFile` promises about its output: how many posts, tags and
    links there are, how they are numbered, which field holds what, and when the
    conversion fails. The links are compared with a reference definition that
    finds each referenced category by its position in the document instead of
    through the dictionary. */
module ConversionProperties {
  import opened Results
  import opened Slugs
  import opened EpochTime
  import opened Conversion

  // ---------------------------------------------------------------------------
  // Reference definitions

  /** The position of the first `g` in `ids`, or `|ids|` when there is none. */
  function PositionOf(ids: seq<Guid>, g: Guid): (i: nat)
    ensures i <= |ids|
    ensures i < |ids| ==> ids[i] == g
    ensures g !in ids[..i]
  {
    if ids == [] then 0
    else if ids[0] == g then 0
    else
      var k := PositionOf(ids[1..], g);
      assert ids[..k + 1] == [ids[0]] + ids[1..][..k];
      k + 1
  }

  /** Every reference of `p` names a declared category. */
  predicate RefsDeclared(cats: seq<CategoryElement>, p: PostElement) {
    match p.categoryRefs
    case None => true
    case Some(refs) => forall j :: 0 <= j < |refs| ==> refs[j] in Ids(cats)
  }

  predicate AllRefsDeclared(doc: BlogMLDocument) {
    forall i :: 0 <= i < |doc.posts| ==> RefsDeclared(doc.categories, doc.posts[i])
  }

  /** The links of post `postId`: one per reference, its tag id the position of the
      referenced category in the document. */
  function ExpectedPostLinks(cats: seq<CategoryElement>, p: PostElement, postId: int): seq<PostTag> {
    match p.categoryRefs
    case None => []
    case Some(refs) => seq(|refs|, j requires 0 <= j < |refs| => PostTag(postId, PositionOf(Ids(cats), refs[j])))
  }

  /** `posts_tags` as the concatenation, in post order, of each post's links; the
      first post is numbered `firstId`. */
  function ExpectedLinks(cats: seq<CategoryElement>, posts: seq<PostElement>, firstId: int): seq<PostTag>
    decreases |posts|
  {
    if posts == [] then []
    else ExpectedPostLinks(cats, posts[0], firstId) + ExpectedLinks(cats, posts[1..], firstId + 1)
  }

  /** The number of category references in `posts`. */
  function RefCount(posts: seq<PostElement>): nat
    decreases |posts|
  {
    if posts == [] then 0
    else (match posts[0].categoryRefs case None => 0 case Some(refs) => |refs|) + RefCount(posts[1..])
  }

  /** Reference `j` of post `i` is the first undeclared reference of the document:
      it names no category, and every reference before it does. */
  predicate IsFirstUndeclaredRef(cats: seq<CategoryElement>, posts: seq<PostElement>, i: int, j: int) {
    && 0 <= i < |posts|
    && posts[i].categoryRefs.Some?
    && 0 <= j < |posts[i].categoryRefs.value|
    && posts[i].categoryRefs.value[j] !in Ids(cats)
    && (forall k :: 0 <= k < j ==> posts[i].categoryRefs.value[k] in Ids(cats))
    && (forall k :: 0 <= k < i ==> RefsDeclared(cats, posts[k]))
  }

  // ---------------------------------------------------------------------------
  // Positions and the dictionary

  lemma PositionOfDistinct(cats: seq<CategoryElement>, i: nat)
    requires DistinctIds(cats)
    requires i < |cats|
    ensures PositionOf(Ids(cats), cats[i].id) == i
  {
  }

  /** With distinct ids, looking an id up in the dictionary gives the tag whose id is
      the category's position. */
  lemma TableLookupIsPosition(removeDiacritics: string -> string, cats: seq<CategoryElement>, g: Guid)
    requires DistinctIds(cats)
    requires g in Ids(cats)
    ensures CategoryTable(removeDiacritics, cats).Success?
    ensures g in CategoryTable(removeDiacritics, cats).value
    ensures CategoryTable(removeDiacritics, cats).value[g].id == PositionOf(Ids(cats), g)
  {
    CategoryTableSpec(removeDiacritics, cats);
    var i := PositionOf(Ids(cats), g);
    PositionOfDistinct(cats, i);
  }

  /** `tags = categories.Values.ToList()`: the tags are the dictionary's values, the
      tag at position i being the value stored under the id of category i. */
  lemma TagsAreTableValues(removeDiacritics: string -> string, cats: seq<CategoryElement>)
    requires DistinctIds(cats)
    ensures CategoryTable(removeDiacritics, cats).Success?
    ensures forall i :: 0 <= i < |cats| ==>
      && cats[i].id in CategoryTable(removeDiacritics, cats).value
      && Tags(removeDiacritics, cats)[i] == CategoryTable(removeDiacritics, cats).value[cats[i].id]
    ensures forall g :: g in CategoryTable(removeDiacritics, cats).value ==>
      CategoryTable(removeDiacritics, cats).value[g] in Tags(removeDiacritics, cats)
  {
    CategoryTableSpec(removeDiacritics, cats);
    var m := CategoryTable(removeDiacritics, cats).value;
    forall g | g in m
      ensures m[g] in Tags(removeDiacritics, cats)
    {
      var i := PositionOf(Ids(cats), g);
      assert Tags(removeDiacritics, cats)[i] == m[g];
    }
  }

  // ---------------------------------------------------------------------------
  // The links of the posts

  /** `table` is the dictionary of `cats`: its keys are the declared ids, and the tag
      stored under an id has the position of that id as its id. */
  ghost predicate TableMatches(table: map<Guid, Tag>, cats: seq<CategoryElement>) {
    && (forall g :: g in table <==> g in Ids(cats))
    && (forall g :: g in table ==> table[g].id == PositionOf(Ids(cats), g))
  }

  lemma CategoryTableMatches(removeDiacritics: string -> string, cats: seq<CategoryElement>)
    requires DistinctIds(cats)
    ensures CategoryTable(removeDiacritics, cats).Success?
    ensures TableMatches(CategoryTable(removeDiacritics, cats).value, cats)
  {
    CategoryTableSpec(removeDiacritics, cats);
    forall g | g in CategoryTable(removeDiacritics, cats).value
      ensures CategoryTable(removeDiacritics, cats).value[g].id == PositionOf(Ids(cats), g)
    {
      TableLookupIsPosition(removeDiacritics, cats, g);
    }
  }

  lemma PostLinksSpec(table: map<Guid, Tag>, cats: seq<CategoryElement>, p: PostElement, postId: int)
    requires TableMatches(table, cats)
    ensures PostLinks(table, p, postId).Success? <==> RefsDeclared(cats, p)
    ensures RefsDeclared(cats, p) ==> PostLinks(table, p, postId) == Success(ExpectedPostLinks(cats, p, postId))
  {
    if p.categoryRefs.Some? {
      var refs := p.categoryRefs.value;
      ResolveRefsSpec(table, refs, postId);
      if RefsDeclared(cats, p) {
        assert ResolveRefs(table, refs, postId).value == ExpectedPostLinks(cats, p, postId);
      }
    }
  }

  lemma PostLinksFailure(table: map<Guid, Tag>, cats: seq<CategoryElement>, p: PostElement, postId: int)
    requires TableMatches(table, cats)
    requires PostLinks(table, p, postId).Failure?
    ensures p.categoryRefs.Some?
    ensures exists j ::
      && 0 <= j < |p.categoryRefs.value|
      && p.categoryRefs.value[j] !in Ids(cats)
      && (forall k :: 0 <= k < j ==> p.categoryRefs.value[k] in Ids(cats))
      && PostLinks(table, p, postId).error == UnknownCategoryRef(p.categoryRefs.value[j])
  {
    ResolveRefsSpec(table, p.categoryRefs.value, postId);
  }

  lemma {:induction false} ExpectedLinksSnoc(cats: seq<CategoryElement>, posts: seq<PostElement>, p: PostElement, firstId: int)
    ensures ExpectedLinks(cats, posts + [p], firstId) ==
      ExpectedLinks(cats, posts, firstId) + ExpectedPostLinks(cats, p, firstId + |posts|)
    decreases |posts|
  {
    if posts == [] {
      assert ([] + [p])[1..] == [];
    } else {
      assert (posts + [p])[1..] == posts[1..] + [p];
      ExpectedLinksSnoc(cats, posts[1..], p, firstId + 1);
    }
  }

  lemma {:induction false} ExpectedLinksLast(cats: seq<CategoryElement>, posts: seq<PostElement>, firstId: int)
    requires posts != []
    ensures ExpectedLinks(cats, posts, firstId) ==
      ExpectedLinks(cats, posts[..|posts| - 1], firstId) + ExpectedPostLinks(cats, posts[|posts| - 1], firstId + |posts| - 1)
  {
    var n := |posts| - 1;
    ExpectedLinksSnoc(cats, posts[..n], posts[n], firstId);
    assert posts[..n] + [posts[n]] == posts;
  }

  /** The loop over the posts fails exactly when some reference is undeclared. */
  lemma {:induction false} PostTagsSucceedsIff(table: map<Guid, Tag>, cats: seq<CategoryElement>, posts: seq<PostElement>)
    requires TableMatches(table, cats)
    ensures PostTags(table, posts).Success? <==> forall i :: 0 <= i < |posts| ==> RefsDeclared(cats, posts[i])
    decreases |posts|
  {
    if posts != [] {
      var n := |posts| - 1;
      var init := posts[..n];
      assert posts[..n + 1] == posts;
      assert forall i :: 0 <= i < n ==> init[i] == posts[i];
      PostTagsSucceedsIff(table, cats, init);
      PostLinksSpec(table, cats, posts[n], n + 1);
      var prefix := PostTags(table, init);
      if prefix.Success? {
        PostTagsStep(table, posts, n, prefix.value);
      } else {
        PostTagsPrefixFailure(table, posts, n);
      }
    }
  }

  lemma PostTagsLast(table: map<Guid, Tag>, cats: seq<CategoryElement>, posts: seq<PostElement>, links: seq<PostTag>)
    requires posts != []
    requires PostTags(table, posts[..|posts| - 1]) == Success(links)
    requires links == ExpectedLinks(cats, posts[..|posts| - 1], 1)
    requires PostLinks(table, posts[|posts| - 1], |posts|)
      == Success(ExpectedPostLinks(cats, posts[|posts| - 1], |posts|))
    ensures PostTags(table, posts) == Success(ExpectedLinks(cats, posts, 1))
  {
    var n := |posts| - 1;
    PostTagsStep(table, posts, n, links);
    ExpectedLinksLast(cats, posts, 1);
    assert posts[..n + 1] == posts;
  }

  /** When it succeeds, the loop over the posts produces the reference links. */
  lemma {:induction false} PostTagsSpec(table: map<Guid, Tag>, cats: seq<CategoryElement>, posts: seq<PostElement>)
    requires TableMatches(table, cats)
    requires PostTags(table, posts).Success?
    ensures PostTags(table, posts).value == ExpectedLinks(cats, posts, 1)
    decreases |posts|
  {
    if posts != [] {
      var n := |posts| - 1;
      var init := posts[..n];
      var prefix := PostTags(table, init);
      // a failing prefix would make the whole loop fail
      if prefix.Success? {
        PostTagsSpec(table, cats, init);
        PostTagsSucceedsIff(table, cats, posts);
        assert RefsDeclared(cats, posts[n]);
        PostLinksSpec(table, cats, posts[n], n + 1);
        PostTagsLast(table, cats, posts, prefix.value);
      }
    }
  }

  /** When the loop over the posts fails, it fails at the first undeclared reference. */
  lemma {:induction false} PostTagsFailure(table: map<Guid, Tag>, cats: seq<CategoryElement>, posts: seq<PostElement>)
    requires TableMatches(table, cats)
    requires PostTags(table, posts).Failure?
    ensures exists i, j ::
      && IsFirstUndeclaredRef(cats, posts, i, j)
      && PostTags(table, posts).error == UnknownCategoryRef(posts[i].categoryRefs.value[j])
    decreases |posts|
  {
    var n := |posts| - 1;
    var init := posts[..n];
    assert posts[..n + 1] == posts;
    assert forall i :: 0 <= i < n ==> init[i] == posts[i];
    var prefix := PostTags(table, init);
    if prefix.Failure? {
      PostTagsPrefixFailure(table, posts, n);
      PostTagsFailure(table, cats, init);
      var i, j :| IsFirstUndeclaredRef(cats, init, i, j)
        && prefix.error == UnknownCategoryRef(init[i].categoryRefs.value[j]);
      assert IsFirstUndeclaredRef(cats, posts, i, j);
    } else {
      PostTagsSucceedsIff(table, cats, init);
      PostTagsStep(table, posts, n, prefix.value);
      PostLinksFailure(table, cats, posts[n], n + 1);
      var refs := posts[n].categoryRefs.value;
      var j :|
        && 0 <= j < |refs|
        && refs[j] !in Ids(cats)
        && (forall k :: 0 <= k < j ==> refs[k] in Ids(cats))
        && PostLinks(table, posts[n], n + 1).error == UnknownCategoryRef(refs[j]);
      assert IsFirstUndeclaredRef(cats, posts, n, j);
    }
  }

  lemma {:induction false} ExpectedLinksCount(cats: seq<CategoryElement>, posts: seq<PostElement>, firstId: int)
    ensures |ExpectedLinks(cats, posts, firstId)| == RefCount(posts)
    decreases |posts|
  {
    if posts != [] {
      ExpectedLinksCount(cats, posts[1..], firstId + 1);
    }
  }

  /** Every link of the reference definition names a post of `posts` (numbered from
      `firstId`) and one of that post's references. */
  lemma {:induction false} ExpectedLinksMembers(cats: seq<CategoryElement>, posts: seq<PostElement>, firstId: int, k: nat)
    requires k < |ExpectedLinks(cats, posts, firstId)|
    ensures exists i, j ::
      && 0 <= i < |posts|
      && posts[i].categoryRefs.Some?
      && 0 <= j < |posts[i].categoryRefs.value|
      && ExpectedLinks(cats, posts, firstId)[k]
         == PostTag(firstId + i, PositionOf(Ids(cats), posts[i].categoryRefs.value[j]))
    decreases |posts|
  {
    var head := ExpectedPostLinks(cats, posts[0], firstId);
    if k < |head| {
      assert posts[0].categoryRefs.Some?;
      assert ExpectedLinks(cats, posts, firstId)[k] == head[k];
      assert ExpectedLinks(cats, posts, firstId)[k]
        == PostTag(firstId + 0, PositionOf(Ids(cats), posts[0].categoryRefs.value[k]));
    } else {
      ExpectedLinksMembers(cats, posts[1..], firstId + 1, k - |head|);
      var i, j :|
        && 0 <= i < |posts[1..]|
        && posts[1..][i].categoryRefs.Some?
        && 0 <= j < |posts[1..][i].categoryRefs.value|
        && ExpectedLinks(cats, posts[1..], firstId + 1)[k - |head|]
           == PostTag(firstId + 1 + i, PositionOf(Ids(cats), posts[1..][i].categoryRefs.value[j]));
      assert posts[1..][i] == posts[i + 1];
      assert ExpectedLinks(cats, posts, firstId)[k]
        == PostTag(firstId + (i + 1), PositionOf(Ids(cats), posts[i + 1].categoryRefs.value[j]));
    }
  }

  // ---------------------------------------------------------------------------
  // The conversion

  /** The conversion succeeds exactly when the category ids are distinct and every
      reference names a declared category. */
  lemma ConvertSucceedsIff(removeDiacritics: string -> string, doc: BlogMLDocument)
    ensures Convert(removeDiacritics, doc).Success? <==> DistinctIds(doc.categories) && AllRefsDeclared(doc)
  {
    CategoryTableSpec(removeDiacritics, doc.categories);
    if DistinctIds(doc.categories) {
      CategoryTableMatches(removeDiacritics, doc.categories);
      PostTagsSucceedsIff(CategoryTable(removeDiacritics, doc.categories).value, doc.categories, doc.posts);
    }
  }

  /** Duplicate category ids fail first, whatever the posts: the error names the
      first category whose id was already declared. */
  lemma ConvertDuplicateId(removeDiacritics: string -> string, doc: BlogMLDocument)
    requires !DistinctIds(doc.categories)
    ensures exists j ::
      && 0 < j < |doc.categories|
      && Convert(removeDiacritics, doc) == Failure(DuplicateCategoryId(doc.categories[j].id))
      && doc.categories[j].id in Ids(doc.categories[..j])
      && DistinctIds(doc.categories[..j])
  {
    CategoryTableSpec(removeDiacritics, doc.categories);
    CategoryTableFailure(removeDiacritics, doc.categories);
  }

  /** With distinct ids, an undeclared reference fails the conversion, and the error
      names the first undeclared reference in document order. */
  lemma ConvertUnknownRef(removeDiacritics: string -> string, doc: BlogMLDocument)
    requires DistinctIds(doc.categories)
    requires !AllRefsDeclared(doc)
    ensures exists i, j ::
      && IsFirstUndeclaredRef(doc.categories, doc.posts, i, j)
      && Convert(removeDiacritics, doc) == Failure(UnknownCategoryRef(doc.posts[i].categoryRefs.value[j]))
  {
    CategoryTableMatches(removeDiacritics, doc.categories);
    var table := CategoryTable(removeDiacritics, doc.categories).value;
    PostTagsSucceedsIff(table, doc.categories, doc.posts);
    PostTagsFailure(table, doc.categories, doc.posts);
  }

  /** One post per `post` element, numbered 1..N in document order, with its fields
      filled as the source fills them. */
  lemma ConvertedPostsShape(removeDiacritics: string -> string, doc: BlogMLDocument)
    requires Convert(removeDiacritics, doc).Success?
    ensures |Convert(removeDiacritics, doc).value.posts| == |doc.posts|
    ensures forall i :: 0 <= i < |doc.posts| ==>
      var p, e := Convert(removeDiacritics, doc).value.posts[i], doc.posts[i];
      && p.id == i + 1
      && p.title == e.title
      && p.slug == GetSlugFromTitle(removeDiacritics, e.title)
      && p.markdown == p.html == e.content
      && p.createdAt == p.publishedAt == GetEpochTime(e.dateCreated)
      && p.updatedAt == GetEpochTime(e.dateModified)
      && p.image == p.metaTitle == p.metaDescription == None
      && p.featured == p.page == 0
      && p.status == "published" && p.language == "en_US"
      && p.authorId == p.createdBy == p.updatedBy == p.publishedBy == 1
  {
  }

  /** One tag per `category` element: the tag at position i has id i, the title as
      name, its slug and an empty description. */
  lemma ConvertedTagsShape(removeDiacritics: string -> string, doc: BlogMLDocument)
    requires Convert(removeDiacritics, doc).Success?
    ensures |Convert(removeDiacritics, doc).value.tags| == |doc.categories|
    ensures forall i :: 0 <= i < |doc.categories| ==>
      Convert(removeDiacritics, doc).value.tags[i]
        == Tag(i, doc.categories[i].title, GetSlugFromTitle(removeDiacritics, doc.categories[i].title), "")
  {
  }

  /** `posts_tags` is the concatenation, in post order, of one link per reference,
      in reference order, with the post's id and the referenced category's position. */
  lemma ConvertedLinks(removeDiacritics: string -> string, doc: BlogMLDocument)
    requires Convert(removeDiacritics, doc).Success?
    ensures Convert(removeDiacritics, doc).value.postsTags == ExpectedLinks(doc.categories, doc.posts, 1)
    ensures |Convert(removeDiacritics, doc).value.postsTags| == RefCount(doc.posts)
  {
    ConvertSucceedsIff(removeDiacritics, doc);
    CategoryTableMatches(removeDiacritics, doc.categories);
    PostTagsSpec(CategoryTable(removeDiacritics, doc.categories).value, doc.categories, doc.posts);
    ExpectedLinksCount(doc.categories, doc.posts, 1);
  }

  /** Every link joins an emitted post and an emitted tag, and the tag is the
      category the post referenced. */
  lemma ConvertedLinksAreConsistent(removeDiacritics: string -> string, doc: BlogMLDocument, k: nat)
    requires Convert(removeDiacritics, doc).Success?
    requires k < |Convert(removeDiacritics, doc).value.postsTags|
    ensures
      var out, link := Convert(removeDiacritics, doc).value, Convert(removeDiacritics, doc).value.postsTags[k];
      && 1 <= link.postId <= |out.posts|
      && out.posts[link.postId - 1].id == link.postId
      && 0 <= link.tagId < |out.tags|
      && out.tags[link.tagId].id == link.tagId
      && var refs := doc.posts[link.postId - 1].categoryRefs;
         refs.Some? && doc.categories[link.tagId].id in refs.value
  {
    ConvertSucceedsIff(removeDiacritics, doc);
    ConvertedLinks(removeDiacritics, doc);
    ExpectedLinksMembers(doc.categories, doc.posts, 1, k);
    var i, j :|
      && 0 <= i < |doc.posts|
      && doc.posts[i].categoryRefs.Some?
      && 0 <= j < |doc.posts[i].categoryRefs.value|
      && ExpectedLinks(doc.categories, doc.posts, 1)[k]
         == PostTag(1 + i, PositionOf(Ids(doc.categories), doc.posts[i].categoryRefs.value[j]));
    assert RefsDeclared(doc.categories, doc.posts[i]);
  }

  // ---------------------------------------------------------------------------
  // A worked example

  /** Two categories and one post, created at 2010-01-01T00:00:00Z, that references
      the second category. */
  function SmallBlog(): BlogMLDocument {
    BlogMLDocument(
      [CategoryElement(1, "Tech News"), CategoryElement(2, "Life & Style")],
      [PostElement(633979008000000000, 633979008000000000, "Hello, World!", "<p>hi</p>", Some([2]))])
  }

  /** The identity stands for `RemoveDiacritics` on these plain ASCII titles. */
  function NoDiacritics(title: string): string {
    title
  }

  lemma SmallBlogConverts()
    ensures Convert(NoDiacritics, SmallBlog()).Success?
  {
    var doc := SmallBlog();
    assert Ids(doc.categories) == [1, 2];
    assert DistinctIds(doc.categories);
    assert RefsDeclared(doc.categories, doc.posts[0]);
    assert AllRefsDeclared(doc);
    ConvertSucceedsIff(NoDiacritics, doc);
  }

  lemma SmallBlogTagSlugs()
    ensures GetSlugFromTitle(NoDiacritics, "Tech News") == "Tech-News"
    ensures GetSlugFromTitle(NoDiacritics, "Life & Style") == "Life-Style"
  {
    SlugOfTechNews();
    SlugOfLifeAndStyle();
  }

  /** Tags 0 and 1, slugged without their spaces and ampersand. */
  lemma SmallBlogTags()
    ensures Convert(NoDiacritics, SmallBlog()).Success?
    ensures Convert(NoDiacritics, SmallBlog()).value.tags
      == [Tag(0, "Tech News", "Tech-News", ""), Tag(1, "Life & Style", "Life-Style", "")]
  {
    var doc := SmallBlog();
    SmallBlogConverts();
    ConvertedTagsShape(NoDiacritics, doc);
    SmallBlogTagSlugs();
  }

  /** Post 1, its slug keeping the trailing dash of "!", created at 1262304000000. */
  lemma SmallBlogPost()
    ensures Convert(NoDiacritics, SmallBlog()).Success?
    ensures |Convert(NoDiacritics, SmallBlog()).value.posts| == 1
    ensures Convert(NoDiacritics, SmallBlog()).value.posts[0].id == 1
    ensures Convert(NoDiacritics, SmallBlog()).value.posts[0].slug == "Hello-World-"
    ensures Convert(NoDiacritics, SmallBlog()).value.posts[0].createdAt == 1262304000000
  {
    var doc := SmallBlog();
    SmallBlogConverts();
    ConvertedPostsShape(NoDiacritics, doc);
    SlugOfHelloWorld();
    StartOf2010();
  }

  /** A single link, from post 1 to tag 1 ("Life & Style"). */
  lemma SmallBlogLinks()
    ensures Convert(NoDiacritics, SmallBlog()).Success?
    ensures Convert(NoDiacritics, SmallBlog()).value.postsTags == [PostTag(1, 1)]
  {
    var doc := SmallBlog();
    SmallBlogConverts();
    ConvertedLinks(NoDiacritics, doc);
    assert PositionOf([1, 2], 2) == 1;
    assert ExpectedLinks(doc.categories, doc.posts, 1) == [PostTag(1, 1)];
  }
}
