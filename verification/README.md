# Terminal blog manager — a Dafny model

This project models the core of a terminal blog manager. Posts are
stored as one JSON file each, and an `index.json` summarises them.

- **Utilities** (`utils.py`):
  - slug identifiers
  - tag cleaning
  - safe file names
  - ellipsis truncation
  - word count and reading time
  - title and content validation
  - summary extraction
- **Post record** (`models.py`): its defaults, and its conversion to and
  from the stored dictionary. This includes the ISO-8601 timestamp text
  that `isoformat()` writes and `fromisoformat()` reads back.
- **Flat-file store** (`storage.py`): saving, loading, deleting, existence,
  loading everything, and the index. The posts directory is modelled as a
  map from file name to file contents. The index file is either absent or
  a map from identifier to entry.
- **Manager** (`blog_manager.py`):
  - collision-free identifier allocation
  - guarded update
  - filtered, newest-first listing
  - relevance-ranked search
  - statistics
  - export file names with their format lookup

The four core modules each mirror one source file; the rest are shared helpers:

- `Wrappers`: `Option` and `Result`.
- `Text`: character classes, `strip`, the character-class rewriting that the
  regular expressions perform, and `split`/`join`.
- `Decimal`: digit strings.
- `Timestamps`: `datetime` values, their text forms and their order.
- `Lists`: slices, filtering, counting, and the stable descending sort with
  `Counter.most_common`.
- `Models`, `Utils`, `Storage` and `BlogManager`: one module per source file.

`get_post` and `delete_post` of the manager forward to the store. They are
`Storage.LoadPost` and `Storage.DeletePost`.

Python's `str.isspace` is modelled with its full character list. `\w`,
`lower()` and the ASCII filter work on the ASCII range. `//` is floor
division and a slice with a negative bound counts from the end, as in
Python.

Two inputs are parameters:

- The wall clock is a `DateTime` argument. It is used in `generate_post_id`'s
  fallback identifier and in a new post's creation time.
- The directory listing is a sequence argument of `LoadAllPosts`. It is the
  order `os.listdir` returns.

The queries take the posts that `load_all_posts` returned.

## Model

| member | source | states |
|---|---|---|
| Models.NewPost | models.py:13-18 | A post built from a title and content has author `"Anonymous"`, no tags, no update time, and the supplied clock reading as its creation time. |
| Models.ToDict | models.py:20-29 | The dictionary has exactly the six keys. `updated_at` is null exactly when the post has no update time. Title, content and author are stored as strings. |
| Models.FromDict | models.py:31-46 | A missing `created_at` is a `KeyError`. Success needs `title` and `content`. `author` defaults to `"Anonymous"` and `tags` to `[]` when absent. A missing or falsy `updated_at` gives no update time. On success the stored `title`, `content` and `author`, when present, are those strings, the stored `tags` list holds exactly the decoded tags, and the stored `created_at` text, and `updated_at` when it is set, parse back to the decoded times. |
| Models.FromDictSucceeds | models.py:31-46 | A dictionary decodes whenever `created_at` (and `updated_at`, when set) is ISO text, `title` and `content` are strings, and `author` and `tags`, when present, are a string and a list of strings. |
| Models.FromDictDefaults | models.py:31-46 | A dictionary with only `title`, `content` and `created_at` decodes to the post with author `"Anonymous"`, no tags and no update time. |
| Models.DictRoundTrip | models.py:20-46 | `from_dict(to_dict(p))` rebuilds every post exactly. |
| Timestamps.IsoRoundTrip | models.py:27-34 | `fromisoformat` reads back every instant that `isoformat` wrote. |
| Timestamps.OrderKeyMatchesComparison | blog_manager.py:74 | The integer sort key orders instants as `datetime` comparison does, field by field, and distinct instants get distinct keys. |
| Utils.GeneratePostId | utils.py:11-27 | The identifier is non-empty and a slug: lower-case word characters and `-`, no leading or trailing `-`, no `--`. The cleaned title is returned whenever it is non-empty. Otherwise the identifier is `post-` followed by the 14-digit `YYYYMMDDHHMMSS` stamp of the clock reading. |
| Utils.SlugCoreIsSlug | utils.py:14-21 | Lower-casing, stripping, dropping special characters, collapsing hyphen/space runs and trimming hyphens always yields a slug, possibly empty. |
| Utils.FallbackIsSlug | utils.py:24-25 | The timestamp fallback `post-YYYYmmddHHMMSS` is itself a slug. |
| Utils.GeneratePostIdIdempotent | utils.py:14-27 | Generating an identifier from an identifier returns it unchanged, whatever the clock reads. |
| Utils.CleanTagIsClean | utils.py:36-42 | A cleaned tag that is kept is non-empty, has no surrounding whitespace and no two adjacent whitespace characters, and holds only word characters, whitespace and `-`. |
| Utils.ValidateTags | utils.py:29-44 | Empty input gives no tags. The result has no duplicates, every tag is clean, and a tag is in the result exactly when it is the cleaned form of some non-empty comma-separated piece. |
| Utils.SanitizeFilename | utils.py:46-68 | The name has 1 to 100 characters, all ASCII `[A-Za-z0-9_-]`. It does not start with `-` and has no `--`. It is `"untitled"` when nothing survives, otherwise the first 100 characters of the cleaned name. |
| Utils.SanitizeKeepsSafeName | utils.py:52-68 | A name that is already safe, in any letter case and of at most 100 characters, comes back unchanged, so case is preserved. |
| Utils.TruncationCanEndWithHyphen | utils.py:65-66 | When the 100th character of a long safe name is `-`, the result is the first 100 characters and ends with `-`. |
| Utils.TruncateText | utils.py:95-100 | A text that fits is returned unchanged. Otherwise the result ends in `...` after a prefix of the text. Its length is exactly `max_length` when `max_length >= 3`, and longer than `max_length` below that. |
| Utils.WordCountZeroIffBlank | utils.py:102-104 | The word count is zero exactly when the text is all whitespace. |
| Utils.WordCountSeparated | utils.py:102-104 | Words on either side of a whitespace character are counted separately and added. |
| Utils.WordCountBound | utils.py:102-104 | A text of n characters has at most (n+1)/2 words. |
| Utils.WordCountOneWord | utils.py:102-104 | A non-empty run of non-whitespace characters is exactly one word. With the zero-iff-blank and whitespace-separation lemmas, this fixes the count as the number of pieces `split()` yields. |
| Utils.ReadingTime | utils.py:106-109 | The result is at least 1. For a positive rate it is the floor of words over rate when that is at least 1, and 1 below two minutes' worth. A negative rate always gives 1. |
| Utils.ValidatePostTitle | utils.py:111-122 | Valid exactly when the stripped title has 3 to 200 characters. A valid title has a non-whitespace character. |
| Utils.ValidatePostContent | utils.py:124-132 | Valid exactly when the stripped content has at least 10 characters. Valid content has at least one word. |
| Utils.NormalizeShape | utils.py:137 | Whitespace normalisation leaves no surrounding whitespace, and only single spaces between words. It is empty exactly when the content is blank. |
| Utils.NormalizeIdempotent | utils.py:137 | Normalising twice is normalising once. |
| Utils.FitCount | utils.py:144-151 | The greedy loop takes sentences while the summary plus sentence plus `.` fits. The sentences taken fit, and the next one would not. |
| Utils.DottedPrefix | utils.py:144-151 | The sentences taken, each followed by `.`, are a prefix of the content. |
| Utils.ExtractSummary | utils.py:134-157 | The normalised content is returned when it fits. With `max_length >= 3` the summary never exceeds `max_length`. |
| Utils.SummaryWholeSentences | utils.py:144-157 | When some sentence fits, the summary is all the leading sentences that fit, each with its `.`. It is a non-empty prefix of the content within the limit. Adding the next sentence would exceed it. |
| Utils.SummaryTruncated | utils.py:153-157 | When not even the first sentence fits, the summary is the first `max_length-3` characters followed by `...`. |
| Storage.JsonNameRoundTrip | storage.py:84-85 | Stripping `.json` from a post's file name gives back its identifier. |
| Storage.Project | storage.py:99-105 | An index entry holds the post's title, author, tags and both timestamps, and not its content. |
| Storage.LoadPost | storage.py:41-55 | A missing file gives `None`. Otherwise the post is what `from_dict` makes of the stored object, and `None` when that fails or the file is not an object. |
| Storage.PostExistsTracksWrites | storage.py:72-75 | `post_exists` answers yes exactly for identifiers saved and not deleted since. A save makes its own identifier exist, a delete makes it absent, and neither changes the answer for any other identifier. |
| Storage.GetIndex | storage.py:127-140 | A missing or unreadable index reads as empty, and a readable one as its contents. |
| Storage.UpdateIndex | storage.py:94-111 | The index after the update is the one read, with the post's entry set. The post files are untouched. |
| Storage.RemoveFromIndex | storage.py:113-125 | The index loses only the post's entry. Nothing is written when there is no such entry. |
| Storage.SavePost | storage.py:25-39 | The post's file holds `to_dict(post)`, the index entry is the projection, and success is reported. |
| Storage.DeletePost | storage.py:57-70 | The post's file and index entry are removed, and success is reported even when nothing was there. |
| Storage.SaveThenLoad | storage.py:25-55 | After a save the post exists and loads back equal to what was saved. |
| Storage.SaveFrame | storage.py:94-108 | A save changes no other post's existence or contents, and no other index entry. |
| Storage.DeleteRemoves | storage.py:57-66 | After a delete the post does not exist, loads as `None`, and is not in the index. |
| Storage.DeleteAbsent | storage.py:57-66 | Deleting an identifier that is neither stored nor indexed leaves the store unchanged. |
| Storage.DeleteFrame | storage.py:113-122 | A delete changes no other post's existence or contents, and no other index entry. |
| Storage.SaveKeepsSynced | storage.py:25-35 | If the index keys are exactly the stored identifiers before a save, they are after it. |
| Storage.DeleteKeepsSynced | storage.py:57-66 | If the index keys are exactly the stored identifiers before a delete, they are after it. |
| Storage.SaveKeepsCoherent | storage.py:94-105 | If every index entry summarises its stored post before a save, it does after it. |
| Storage.DeleteKeepsCoherent | storage.py:113-119 | If every index entry summarises its stored post before a delete, it does after it. |
| Storage.LoadAllPosts | storage.py:77-92 | Every pair returned is a `.json` file of the listing whose post loads, with its identifier. |
| Storage.LoadAllPostsExact | storage.py:77-92 | Over a full listing, a pair is returned exactly when that identifier loads as that post, and no identifier appears twice. |
| BlogManager.CandidateInjective | blog_manager.py:34-38 | The identifiers tried, `base`, `base-1`, `base-2`, ..., are pairwise different. |
| BlogManager.CollisionsBounded | blog_manager.py:36-38 | No more attempts can collide than there are stored files, so the suffix loop stops. |
| BlogManager.FreeSuffix | blog_manager.py:33-38 | The loop ends at an unused attempt, and every earlier attempt was in use. |
| BlogManager.CreatePost | blog_manager.py:29-41 | The identifier is the slug when that is unused. Otherwise it is `slug-k` for the smallest free k. It was unused before, and the post loads from it afterwards. |
| BlogManager.SecondCreateGetsSuffixOne | blog_manager.py:31-41 | When `base` and `base-1` are both unused, saving a post under `base` makes the next same-titled post get `base-1`. |
| BlogManager.UpdatePost | blog_manager.py:47-53 | The update succeeds exactly when the post exists. A failed update leaves the store unchanged, and a successful one saves. |
| BlogManager.UpdateReplaces | blog_manager.py:47-53 | A successful update makes the post load as the new record with the new index entry, and leaves every other post as it was. |
| BlogManager.ListPosts | blog_manager.py:59-77 | The listing is a prefix of the filtered posts in newest-first order. For a limit of zero or more it has length `min(limit, matches)`. A negative limit drops that many posts from the end, as `posts[:limit]` does. |
| BlogManager.ListPostsFiltered | blog_manager.py:64-71 | Every listed post was loaded and passes both filters. An absent or empty filter passes everything, tags match exactly, and authors match ignoring case. |
| BlogManager.ListPostsComplete | blog_manager.py:64-77 | When the limit does not cut, every loaded post that passes the filters is listed. |
| BlogManager.ListPostsNewestFirst | blog_manager.py:73-74 | No listed post was created earlier than the one after it. |
| BlogManager.ListPostsStable | blog_manager.py:74 | Posts created at the same instant appear in load order. |
| BlogManager.ContainsAt | blog_manager.py:88-90 | The substring test holds exactly when the query occurs at some offset. |
| BlogManager.Score | blog_manager.py:94-103 | The relevance lies between 0 and 18. It is at least 3 exactly when something matches, and at least 10 exactly when the title matches. |
| BlogManager.SearchPosts | blog_manager.py:79-106 | Results are in non-increasing relevance, and there are never more than the posts loaded. |
| BlogManager.SearchPostsExact | blog_manager.py:84-91 | A post is found exactly when the lower-cased query occurs in its lower-cased title, content or some tag. Each result scores at least 3. |
| BlogManager.SearchPostsStable | blog_manager.py:105 | Results with equal relevance keep their load order. |
| BlogManager.EmptyQueryFindsAll | blog_manager.py:84-91 | The empty query finds every post, each once. |
| BlogManager.MostActive | blog_manager.py:158-165 | The most active author is one of the authors, and no author writes more often. |
| BlogManager.GetStatistics | blog_manager.py:136-168 | No posts give zero counts, author `"None"`, no tags and average 0. Otherwise: the post count is the number of posts; the author and tag counts are the numbers of distinct authors and distinct tags; the most active author is an author with the most posts (`BlogManager.MostActive`); the tag ranking is the ten most common tags; the average is the total content length divided by the post count, rounded down (`BlogManager.FloorMean`). |
| BlogManager.StatisticsAuthors | blog_manager.py:161-163 | A non-empty blog has between 1 and (number of posts) distinct authors. |
| BlogManager.StatisticsNoTags | blog_manager.py:151-164 | The distinct tag count is zero exactly when no post has a tag. |
| BlogManager.FloorMean | blog_manager.py:167 | The average post length is the largest whole number whose product with the post count does not exceed the total content length. |
| BlogManager.MostUsedTagsRanked | blog_manager.py:159-166 | Exactly `min(10, distinct tags)` tags, each used, none twice, by non-increasing use. No tag left out is used more often than one shown. |
| BlogManager.ExportFilename | blog_manager.py:170-176 | An unknown format fails with `KeyError` at the extension lookup. The known formats give a name. |
| BlogManager.ExportFilenameShape | blog_manager.py:170-176 | The name is the `%Y-%m-%d` date, `-`, the sanitised title, `.` and the extension (`md`, `html` or `json`), and its only `.` separates the extension. |
| BlogManager.ExportPosts | blog_manager.py:108-134 | With no posts the export succeeds with no files, whatever the format. With posts an unknown format fails with `KeyError`, never `ValueError`. Otherwise each name is the export name of the post at that position. |
| Lists.SortDescStable | blog_manager.py:74 | The descending sort keeps elements with equal keys in their original order. |
| Lists.MostCommonRanked | blog_manager.py:158-166 | `most_common` ranks by non-increasing count, and nothing left out occurs more often than anything chosen. |

## Left out

- Unicode: the NFKD step of `sanitize_filename` is not modelled. The ASCII filter drops every non-ASCII character, where the program first decomposes accented letters and keeps their base letter. For "Café Déjà-vu!" the model gives `Caf-Dj-vu` where the program gives `Cafe-Deja-vu`. Unicode-aware `\w` and `lower()` are restricted to ASCII, because they depend on Unicode tables.
- Letter case in file names: `sanitize_filename` keeps letter case, so its export slug is not lower-cased (`Utils.SanitizeKeepsSafeName`). This is a property of the program, and the model keeps it.
- `format_date`, which reads the wall clock, is not modelled. The clock read in `generate_post_id` is the `now` parameter.
- Real file I/O, directory creation, `json.dump`/`json.load` text serialisation and the text of `index.json` are not modelled. Files are maps of decoded values.
- An index file that decodes to something other than an object is not modelled. In the program, writing into it raises, and the error is swallowed.
- I/O failures and the swallowed exceptions in `save_post`, `delete_post`, `_update_index`, `_remove_from_index` and `load_all_posts` are not modelled. Saves and deletes always report success. An unreadable index still reads as empty, so a save over it rewrites the index with the one entry, as the code does.
- Storage.IndexEntry: the index stores the two timestamps as `datetime` values rather than their ISO text. `Timestamps.IsoRoundTrip` shows that reading the written text gives back the same instant. The converse does not hold: `2024-01-01T00:00:00.000000` reads as an instant that is written back as `2024-01-01T00:00:00`.
- `Models.FromDict` rejects values of the wrong JSON type, such as a numeric title, with an error. Python would accept them into the dataclass unchecked.
- `Timestamps.FromIsoFormat` accepts only the two shapes `isoformat()` writes, with and without microseconds. The other shapes Python 3.11 `fromisoformat` accepts are not modelled.
- `Utils.ValidateTags` returns its tags in an order the model does not fix. `list(set(...))` order depends on string hashing.
- `Utils.ExtractSummary` states the length bound and the fits case for any content. The two shapes of a long summary (whole sentences, or the ellipsis cut) are stated only for content already normalised, by `Utils.SummaryWholeSentences` and `Utils.SummaryTruncated`.
- `Utils.ReadingTime` requires a non-zero rate, because a zero rate is a `ZeroDivisionError` in the program.
- The markdown, HTML and JSON export file bodies, and the writing of export files, are not modelled. `ExportPosts` yields the file names only.
- `to_json`, `from_json`, `__str__` and `__repr__` are not modelled. They are thin wrappers over `json` and string formatting.
- `main.py` (the command-line interface and its rendering) is not modelled.
- `strftime('%Y')` for years below 1000 is not modelled. Its padding depends on the platform, and the model always writes four digits.
