# BlogEngine2GhostConverter in Dafny

BlogEngine2GhostConverter reads a BlogEngine.NET blog exported as BlogML (XML) and
writes a Ghost import file (JSON). This project models the conversion itself:

- `Slugs`: `GetSlugFromTitle`. Every maximal run of characters outside
  `[A-Za-z0-9-]` becomes one `-`, and then every run of two or more `-` becomes one
  `-`. Diacritics are removed first, by a function the model takes as a parameter.
- `EpochTime`: `GetEpochTime`. A `DateTime` is a count of 100 ns ticks since
  0001-01-01. The result is the number of milliseconds since 1970-01-01T00:00:00Z,
  truncated toward zero as the cast to `long` does.
- `Conversion`: `ConvertInputFile`, starting from the parsed document. The steps:
  - the categories go into a dictionary keyed by id, and the tag of the category at
    position i has id i;
  - the posts are numbered 1, 2, ... by a running counter;
  - each category reference inside a post gives one `{post_id, tag_id}` link.

  A duplicate category id or an unresolved reference makes the conversion fail.

  It has two forms:
  - the method `ConvertInputFile`, with the source's loops and accumulators;
  - the function `Convert`, which specifies the method.
- `ConversionProperties`: what the output is, stated against reference definitions.
  The links are computed by finding each referenced category's position in the
  document, not by going through the dictionary. The module also covers when and
  how the conversion fails, and a worked example.

`Results` holds the `Option` and `Result` datatypes. A parsed document is a
`BlogMLDocument`:
- a `CategoryElement` has an id and a title;
- a `PostElement` has two dates, a title, the content, and `None` when the post has
  no nested `categories` element (otherwise `Some` of the `ref` ids, in order).

An exception is modelled as a `Failure`:
- `DuplicateCategoryId` when `ToDictionary` meets a key twice;
- `UnknownCategoryRef` when `categories[ref]` misses.

Two consequences of the code are worth stating:
- tag ids are 0-based: a tag's id is the `Select((p, s) => ...)` index of its category;
- `GetEpochTime` is monotone but not strictly monotone. Dates less than a
  millisecond apart can give the same number, and truncation toward zero sends
  every date within 9999 ticks of the epoch to 0.

## Model

| member | source | states |
|---|---|---|
| Slugs.ReplaceForeignRuns | src/BlogEngine2GhostConverter/Program.cs:127 | the first `Regex.Replace` never lengthens the text, is empty only on empty input, produces only `[A-Za-z0-9-]`, and starts with `-` exactly when the input does not start with an ASCII letter or digit |
| Slugs.CollapseDashRuns | src/BlogEngine2GhostConverter/Program.cs:127 | the second `Regex.Replace` leaves no `--`, never lengthens, keeps the first character, is empty only on empty input, and introduces no character that was not there; with `CollapseMergesDashRun` and `CollapseCopiesDashFreeWord` below, each run of dashes becomes exactly one `-` and everything else is copied |
| Slugs.Slugify | src/BlogEngine2GhostConverter/Program.cs:127 | both passes together give a slug (only `[A-Za-z0-9-]`, no `--`) no longer than the input, empty exactly when the input is empty |
| Slugs.GetSlugFromTitle | src/BlogEngine2GhostConverter/Program.cs:125-128 | the slug of a title is a slug no longer than the title with diacritics removed |
| Slugs.ReplaceKeepsSlugChars | src/BlogEngine2GhostConverter/Program.cs:127 | text made only of `[A-Za-z0-9-]` passes the first replacement unchanged |
| Slugs.CollapseKeepsSingleDashes | src/BlogEngine2GhostConverter/Program.cs:127 | text without `--` passes the second replacement unchanged |
| Slugs.SlugifyFixedPoints | src/BlogEngine2GhostConverter/Program.cs:127 | slugification leaves a string unchanged exactly when it already is a slug |
| Slugs.SlugifyIdempotent | src/BlogEngine2GhostConverter/Program.cs:127 | slugifying a slug changes nothing |
| Slugs.ReplaceKeepsAlnums | src/BlogEngine2GhostConverter/Program.cs:127 | the first replacement keeps the ASCII letters and digits, in order, and adds none |
| Slugs.CollapseKeepsAlnums | src/BlogEngine2GhostConverter/Program.cs:127 | the second replacement keeps the ASCII letters and digits, in order, and adds none |
| Slugs.SlugifyKeepsAlnums | src/BlogEngine2GhostConverter/Program.cs:127 | the slug's letters and digits are exactly the input's, in the same order |
| Slugs.CollapseOfReplaceIsCollapseOfMask | src/BlogEngine2GhostConverter/Program.cs:127 | after the second pass, the `+` of the first pattern makes no difference: replacing each foreign character on its own gives the same slug |
| Slugs.SlugifyIsCollapsedMask | src/BlogEngine2GhostConverter/Program.cs:127 | the slug equals the reference definition: mask each foreign character by `-`, then collapse dash runs |
| Slugs.ReplaceCopiesSlugWord | src/BlogEngine2GhostConverter/Program.cs:127 | a word of `[A-Za-z0-9-]` is copied unchanged by the first replacement |
| Slugs.ReplaceMergesForeignRun | src/BlogEngine2GhostConverter/Program.cs:127 | a maximal run of other characters becomes exactly one `-` |
| Slugs.CollapseCopiesDashFreeWord | src/BlogEngine2GhostConverter/Program.cs:127 | a word without `-` is copied unchanged by the second replacement |
| Slugs.CollapseMergesDashRun | src/BlogEngine2GhostConverter/Program.cs:127 | a maximal run of one or more `-` becomes exactly one `-`, so words never lose the dash between them |
| Slugs.SlugOfTechNews | src/BlogEngine2GhostConverter/Program.cs:127 | "Tech News" becomes "Tech-News" |
| Slugs.SlugOfLifeAndStyle | src/BlogEngine2GhostConverter/Program.cs:127 | "Life & Style" becomes "Life-Style" |
| Slugs.SlugOfHelloWorld | src/BlogEngine2GhostConverter/Program.cs:127 | "Hello, World!" becomes "Hello-World-"; a trailing run becomes a trailing dash, with no trimming |
| Slugs.SlugOfSpacedDash | src/BlogEngine2GhostConverter/Program.cs:127 | "a - b" becomes "a-b": the spaces and the dash between the words leave one dash |
| EpochTime.TruncateToMillis | src/BlogEngine2GhostConverter/Program.cs:122 | the `(long)` cast of a tick difference in milliseconds truncates toward zero: the result times 10000 is within one millisecond of the difference, on the side of zero |
| EpochTime.GetEpochTime | src/BlogEngine2GhostConverter/Program.cs:119-123 | the result is `(ticks - epochTicks) / 10000` truncated toward zero; it lies between -62135596800000 and 253402300799999, so it fits a `long` |
| EpochTime.EpochMillisRoundTrip | src/BlogEngine2GhostConverter/Program.cs:119-123 | converting the tick count of a whole number of epoch milliseconds gives that number back |
| EpochTime.EpochIsZero | src/BlogEngine2GhostConverter/Program.cs:121-122 | 1970-01-01T00:00:00Z gives 0 |
| EpochTime.GetEpochTimeMonotone | src/BlogEngine2GhostConverter/Program.cs:119-123 | a later date never gives a smaller number |
| EpochTime.TruncationMergesNearbyDates | src/BlogEngine2GhostConverter/Program.cs:122 | not strictly monotone: the epoch and 1 tick after it both give 0, as do 9999 ticks either side of it, while 10000 ticks before it gives -1 |
| EpochTime.StartOf2010 | src/BlogEngine2GhostConverter/Program.cs:119-123 | 2010-01-01T00:00:00Z gives 1262304000000 |
| Conversion.Ids | src/BlogEngine2GhostConverter/Program.cs:63 | the ids of the categories, one per category, in order |
| Conversion.IdsSnoc | src/BlogEngine2GhostConverter/Program.cs:60-63 | one more category adds its id at the end of the ids |
| Conversion.DistinctIdsSnoc | src/BlogEngine2GhostConverter/Program.cs:60-63 | the ids stay distinct after one more category exactly when they were distinct and the new id is not among them |
| Conversion.CategoryTag | src/BlogEngine2GhostConverter/Program.cs:64-69 | the tag built from the category at a position: that position as id, the title as name, the title's slug, an empty description |
| Conversion.CategoryTable | src/BlogEngine2GhostConverter/Program.cs:60-69 | `ToDictionary` over the categories in document order, failing at the first id already a key; every stored tag's id is a position of the document |
| Conversion.CategoryTableSpec | src/BlogEngine2GhostConverter/Program.cs:60-69 | `ToDictionary` succeeds exactly when the category ids are distinct; its keys are exactly the ids, and the id of category i maps to the tag with id i, the title as name, its slug and an empty description |
| Conversion.CategoryTableFailure | src/BlogEngine2GhostConverter/Program.cs:60-69 | when `ToDictionary` fails, the error names the first category whose id was already a key |
| Conversion.Tags | src/BlogEngine2GhostConverter/Program.cs:114 | one tag per category, the tag at position i made from category i |
| Conversion.PostOf | src/BlogEngine2GhostConverter/Program.cs:75-97 | the post object built for a post element and its number: title, slug, content as markdown and html, the three dates, and the constant fields |
| Conversion.ConvertedPosts | src/BlogEngine2GhostConverter/Program.cs:71-97 | one post per post element, in document order, the one at position i numbered i + 1 |
| Conversion.ResolveRefs | src/BlogEngine2GhostConverter/Program.cs:103-105 | the links of one post's references, looked up one at a time: on success one link per reference, each carrying the post's id |
| Conversion.ResolveRefsSpec | src/BlogEngine2GhostConverter/Program.cs:103-107 | the links of one post resolve exactly when every reference is a key; they then have one link per reference, in order, with the post's id and the looked-up tag id; otherwise the error names the first reference that misses |
| Conversion.PostLinks | src/BlogEngine2GhostConverter/Program.cs:99-108 | no links without a nested `categories` element, otherwise the resolved references; every link carries the post's id |
| Conversion.PostTags | src/BlogEngine2GhostConverter/Program.cs:72-108 | `tagsBelongingToPost` after the posts, numbered from 1, or the first failed lookup; every link names one of those posts |
| Conversion.Convert | src/BlogEngine2GhostConverter/Program.cs:50-117 | the whole conversion: the dictionary first, then the posts and their links; on success one post per post element and one tag per category |
| Conversion.ResolveRefsStep | src/BlogEngine2GhostConverter/Program.cs:105-107 | one more reference adds its link, or fails when the lookup misses |
| Conversion.ConvertedPostsStep | src/BlogEngine2GhostConverter/Program.cs:72-97 | one more iteration appends the post numbered by the incremented counter |
| Conversion.PostTagsStep | src/BlogEngine2GhostConverter/Program.cs:99-108 | one more post appends its links to `tagsBelongingToPost`, or fails when one of its lookups misses |
| Conversion.ResolveRefsPrefixFailure | src/BlogEngine2GhostConverter/Program.cs:105-107 | a lookup that misses ends the enumeration: the failure of a prefix of the references is the failure of the whole |
| Conversion.PostTagsPrefixFailure | src/BlogEngine2GhostConverter/Program.cs:72-108 | a lookup that misses ends the run: the failure of a prefix of the posts is the failure of the whole |
| Conversion.AddPostLinks | src/BlogEngine2GhostConverter/Program.cs:102-107 | `tagsBelongingToPost.AddRange(tags)` appends exactly the resolved links of the post, or fails with the first missing reference |
| Conversion.ConvertInputFile | src/BlogEngine2GhostConverter/Program.cs:50-117 | the loop over the posts, with its counter and its two lists, returns exactly `Convert`: the dictionary first, then the posts and their links, with the first failure as the result |
| ConversionProperties.PositionOf | src/BlogEngine2GhostConverter/Program.cs:62-65 | the position of the first occurrence of an id in the declared ids, or their number when it is absent |
| ConversionProperties.PositionOfDistinct | src/BlogEngine2GhostConverter/Program.cs:62-65 | with distinct ids, the id of category i is found at position i |
| ConversionProperties.TableLookupIsPosition | src/BlogEngine2GhostConverter/Program.cs:62-65 | with distinct ids, the tag stored under a declared id has that id's position as its id |
| ConversionProperties.TagsAreTableValues | src/BlogEngine2GhostConverter/Program.cs:114 | `categories.Values.ToList()` in declaration order: tag i is the value stored under the id of category i, and every stored value is one of the tags |
| ConversionProperties.CategoryTableMatches | src/BlogEngine2GhostConverter/Program.cs:60-69 | with distinct ids the dictionary has exactly the declared ids as keys, each mapped to a tag with its position as id |
| ConversionProperties.PostLinksSpec | src/BlogEngine2GhostConverter/Program.cs:99-108 | a post's links resolve exactly when all its references are declared; they are then one link per reference, in order, with the referenced category's position as tag id, and none when the post has no `categories` element |
| ConversionProperties.PostLinksFailure | src/BlogEngine2GhostConverter/Program.cs:99-108 | when a post's links fail, the post has a `categories` element and the error names its first undeclared reference |
| ConversionProperties.ExpectedLinksSnoc | src/BlogEngine2GhostConverter/Program.cs:72-108 | the reference links of one more post are the old links followed by that post's links |
| ConversionProperties.ExpectedLinksLast | src/BlogEngine2GhostConverter/Program.cs:72-108 | the reference links split into those of all posts but the last, followed by the last post's links |
| ConversionProperties.PostTagsSucceedsIff | src/BlogEngine2GhostConverter/Program.cs:72-108 | the loop over the posts succeeds exactly when every reference of every post is declared |
| ConversionProperties.PostTagsLast | src/BlogEngine2GhostConverter/Program.cs:72-108 | once the links of all posts but the last match the reference, so do the links of all posts |
| ConversionProperties.PostTagsSpec | src/BlogEngine2GhostConverter/Program.cs:72-108 | a successful loop leaves `tagsBelongingToPost` equal to the reference: each post's links, in post order |
| ConversionProperties.PostTagsFailure | src/BlogEngine2GhostConverter/Program.cs:72-108 | a failed loop fails at the first undeclared reference in document order |
| ConversionProperties.ExpectedLinksCount | src/BlogEngine2GhostConverter/Program.cs:99-108 | there is one link per category reference of the posts |
| ConversionProperties.ExpectedLinksMembers | src/BlogEngine2GhostConverter/Program.cs:99-108 | every reference link names a post and one of that post's references |
| ConversionProperties.ConvertSucceedsIff | src/BlogEngine2GhostConverter/Program.cs:50-117 | the conversion succeeds exactly when the category ids are distinct and every reference names a declared category |
| ConversionProperties.ConvertDuplicateId | src/BlogEngine2GhostConverter/Program.cs:60-69 | duplicate ids fail the conversion whatever the posts, naming the first category whose id was already declared |
| ConversionProperties.ConvertUnknownRef | src/BlogEngine2GhostConverter/Program.cs:99-108 | with distinct ids, an undeclared reference fails the conversion, naming the first undeclared reference in document order |
| ConversionProperties.ConvertedPostsShape | src/BlogEngine2GhostConverter/Program.cs:71-97 | the posts are numbered 1..N in document order; each has the title, its slug, the content as both markdown and html, created and published at the creation date, updated at the modification date, null image and meta fields, featured and page 0, status "published", language "en_US" and user 1 everywhere |
| ConversionProperties.ConvertedTagsShape | src/BlogEngine2GhostConverter/Program.cs:60-69 | one tag per category, in declaration order: tag i has id i, the title as name, its slug and an empty description |
| ConversionProperties.ConvertedLinks | src/BlogEngine2GhostConverter/Program.cs:99-115 | `posts_tags` is the concatenation, in post order, of one link per reference, in reference order, whose tag id is the referenced category's position; there are as many links as references |
| ConversionProperties.ConvertedLinksAreConsistent | src/BlogEngine2GhostConverter/Program.cs:99-115 | every link joins an emitted post and an emitted tag, and that tag's category is among the post's references, so a post without a `categories` element has no link |
| ConversionProperties.SmallBlogConverts | src/BlogEngine2GhostConverter/Program.cs:50-117 | a blog with two categories and one post referencing the second converts |
| ConversionProperties.SmallBlogTagSlugs | src/BlogEngine2GhostConverter/Program.cs:67 | the two category titles of the example slug to "Tech-News" and "Life-Style" |
| ConversionProperties.SmallBlogTags | src/BlogEngine2GhostConverter/Program.cs:60-69 | the example's tags are (0, "Tech News", "Tech-News", "") and (1, "Life & Style", "Life-Style", "") |
| ConversionProperties.SmallBlogPost | src/BlogEngine2GhostConverter/Program.cs:71-97 | the example's single post has id 1, slug "Hello-World-" and created_at 1262304000000 |
| ConversionProperties.SmallBlogLinks | src/BlogEngine2GhostConverter/Program.cs:99-108 | the example has the single link (post 1, tag 1) |

## Left out

- `Main` (lines 15-48) is not modelled: the argument check, reading and writing files, and the console messages. An exception in the conversion ends the program there; the model returns a `Failure` instead.
- The `meta` block (`exported_on` from `DateTime.UtcNow`, `version` "004") is not modelled, because it reads the clock.
- JSON serialisation is not modelled. The model returns the three arrays as Dafny values; a JSON `null` is `None`.
- XML loading and the `XNamespace` lookups are not modelled. The model starts from the parsed document. It does not cover a missing `posts` or top-level `categories` element, a missing `title`, `content` or attribute, or a `(Guid)` or `(DateTime)` cast that fails: each of these throws in the source.
- `DateTime` parsing, time zones and the `Kind` of the parsed dates are not modelled. A date is its tick count, 0..3155378975999999999.
- The `uuid` field of each post (`Guid.NewGuid()`, line 78) is not modelled, because it is random. The `Post` datatype has no such field.
- `RemoveDiacritics` (lines 130-149) is a parameter of the model, because code-page 1252 conversion, Unicode normalisation and Unicode categories are not modelled. The slug properties hold whatever it returns.
- EpochTime.GetEpochTime: the truncation is computed on the exact tick difference. The source goes through the double `TotalMilliseconds`, which can round a value just below a whole millisecond up to it for dates far from 1970; that rounding is not modelled.
- Conversion.Tags: the tags are listed in declaration order. The source lists `Dictionary.Values`, which .NET does not promise to keep in insertion order, though it does when no key is removed.
- The lazy LINQ evaluation of `Select(...)` is modelled by its effect only: links are resolved one at a time while they are appended, and the first lookup that misses ends the run.
