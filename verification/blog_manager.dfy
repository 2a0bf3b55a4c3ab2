/** The manager layer (`BlogManager`): identifier allocation on top of the
    store, guarded update, and the queries over the loaded posts — listing,
    search, statistics and export file names. Queries take the result of
    `load_all_posts` as their input. */
module BlogManager {
  import opened Wrappers
  import opened Text
  import opened Decimal
  import opened Timestamps
  import opened Models
  import opened Lists
  import opened Utils
  import opened Storage

  type Entry = (String, Post)

  /* ---------- Identifier allocation (create_post) ---------- */

  /** The identifier tried after `k` collisions: the base, then
      `base-1`, `base-2`, ... */
  function Candidate(base: String, k: nat): String {
    if k == 0 then base else base + "-" + NatToString(k)
  }

  /** Different attempts name different identifiers. */
  lemma CandidateInjective(base: String, j: nat, k: nat)
    requires Candidate(base, j) == Candidate(base, k)
    ensures j == k
  {
    if j != 0 && k != 0 {
      var a := Candidate(base, j);
      assert NatToString(j) == a[|base| + 1..];
      assert NatToString(k) == a[|base| + 1..];
      NatToStringInjective(j, k);
    }
  }

  /** The file names of the first `k` attempts. */
  ghost function Tried(base: String, k: nat): (r: set<String>)
    ensures forall j :: 0 <= j < k ==> JsonName(Candidate(base, j)) in r
    ensures forall f :: f in r ==> exists j :: 0 <= j < k && f == JsonName(Candidate(base, j))
  {
    if k == 0 then {} else Tried(base, k - 1) + {JsonName(Candidate(base, k - 1))}
  }

  lemma {:induction false} TriedSize(base: String, k: nat)
    ensures |Tried(base, k)| == k
  {
    if k > 0 {
      TriedSize(base, k - 1);
      var f := JsonName(Candidate(base, k - 1));
      if f in Tried(base, k - 1) {
        var j :| 0 <= j < k - 1 && f == JsonName(Candidate(base, j));
        JsonNameInjective(Candidate(base, k - 1), Candidate(base, j));
        CandidateInjective(base, k - 1, j);
      }
    }
  }

  lemma SubsetSize<T>(a: set<T>, b: set<T>)
    requires a <= b
    ensures |a| <= |b|
  {
    if a != {} {
      var x :| x in a;
      SubsetSize(a - {x}, b - {x});
    }
  }

  /** Only as many attempts can collide as there are files: the reason the
      suffix loop stops. */
  lemma CollisionsBounded(s: Store, base: String, k: nat)
    requires forall j :: 0 <= j < k ==> PostExists(s, Candidate(base, j))
    ensures k <= |s.files.Keys|
  {
    TriedSize(base, k);
    SubsetSize(Tried(base, k), s.files.Keys);
  }

  /** `k` is the first attempt that does not collide. */
  predicate FirstFree(s: Store, base: String, k: nat) {
    && !PostExists(s, Candidate(base, k))
    && forall j :: 0 <= j < k ==> PostExists(s, Candidate(base, j))
  }

  /** The first free attempt is unique. */
  lemma FirstFreeUnique(s: Store, base: String, j: nat, k: nat)
    requires FirstFree(s, base, j) && FirstFree(s, base, k)
    ensures j == k
  {
  }

  /** `create_post`: slugs the title (with `now` standing for the clock the
      fallback identifier reads), appends `-1`, `-2`, ... until the
      identifier is unused, and saves the post under it. */
  method CreatePost(s: Store, post: Post, now: DateTime) returns (id: String, k: nat, t: Store)
    ensures id == Candidate(GeneratePostId(post.title, now), k)
    ensures FirstFree(s, GeneratePostId(post.title, now), k)
    ensures t == SavePost(s, id, post).0
    ensures !PostExists(s, id) && LoadPost(t, id) == Some(post)
  {
    var base := GeneratePostId(post.title, now);
    k := FreeSuffix(s, base);
    id := Candidate(base, k);
    t := SavePost(s, id, post).0;
    SaveThenLoad(s, id, post);
  }

  /** The suffix loop of `create_post`: the first attempt that is free. It
      stops because every collision is a distinct stored file. */
  method FreeSuffix(s: Store, base: String) returns (k: nat)
    ensures FirstFree(s, base, k)
  {
    k := 0;
    while PostExists(s, Candidate(base, k))
      invariant forall j :: 0 <= j < k ==> PostExists(s, Candidate(base, j))
      invariant k <= |s.files.Keys|
      decreases |s.files.Keys| - k
    {
      CollisionsBounded(s, base, k + 1);
      k := k + 1;
    }
  }

  /** Creating two posts with the same title on an empty slot yields the
      base identifier and then `base-1`. */
  lemma SecondCreateGetsSuffixOne(s: Store, base: String, p: Post, k: nat)
    requires !PostExists(s, base) && !PostExists(s, base + "-1")
    requires FirstFree(SavePost(s, base, p).0, base, k)
    ensures k == 1 && Candidate(base, k) == base + "-1"
  {
    var t := SavePost(s, base, p).0;
    assert NatToString(1) == "1";
    assert Candidate(base, 1) == base + "-1";
    assert base + "-1" != base by {
      assert |base + "-1"| != |base|;
    }
    PostExistsTracksWrites(s, base, p, base);
    PostExistsTracksWrites(s, base, p, base + "-1");
    assert FirstFree(t, base, 1);
    FirstFreeUnique(t, base, k, 1);
  }

  /* ---------- Update ---------- */

  /** `update_post`: replaces the stored post only when one exists. */
  function UpdatePost(s: Store, id: String, p: Post): (r: (Store, bool))
    ensures r.1 <==> PostExists(s, id)
    ensures !r.1 ==> r.0 == s
    ensures r.1 ==> r.0 == SavePost(s, id, p).0
  {
    if !PostExists(s, id) then (s, false) else (SavePost(s, id, p).0, true)
  }

  /** A successful update replaces the record wholesale and touches no
      other post. */
  lemma UpdateReplaces(s: Store, id: String, p: Post, other: String)
    requires PostExists(s, id) && other != id
    ensures var t := UpdatePost(s, id, p).0;
      && LoadPost(t, id) == Some(p)
      && GetIndex(t)[id] == Project(p)
      && LoadPost(t, other) == LoadPost(s, other)
  {
    SaveThenLoad(s, id, p);
    SaveFrame(s, id, p, other);
  }

  /* ---------- Listing ---------- */

  /** The filters of `list_posts`: an absent or empty filter lets everything
      through; the tag must be among the post's tags exactly; the author
      matches ignoring case. */
  predicate Passes(e: Entry, tag: Option<String>, author: Option<String>) {
    && (tag.None? || tag.value == [] || tag.value in e.1.tags)
    && (author.None? || author.value == [] || Lower(e.1.author) == Lower(author.value))
  }

  function Matching(all: seq<Entry>, tag: Option<String>, author: Option<String>): seq<Entry> {
    Filter(all, e => Passes(e, tag, author))
  }

  /** The sort key of `list_posts`: the creation time. */
  function Created(e: Entry): int {
    OrderKey(e.1.createdAt)
  }

  /** `list_posts`: filtered, newest first (stable for equal times), then
      `[:limit]`. */
  function ListPosts(all: seq<Entry>, limit: int, tag: Option<String>, author: Option<String>): (r: seq<Entry>)
    ensures |r| <= |Matching(all, tag, author)|
    ensures r == SortDesc(Matching(all, tag, author), Created)[..|r|]
    ensures limit >= 0 ==> |r| == Min(limit, |Matching(all, tag, author)|)
    ensures limit < 0 ==> |r| == Max(0, |Matching(all, tag, author)| + limit)
  {
    PyTake(SortDesc(Matching(all, tag, author), Created), limit)
  }

  /** Every listed post passes the filters and was loaded. */
  lemma ListPostsFiltered(all: seq<Entry>, limit: int, tag: Option<String>, author: Option<String>)
    ensures forall e :: e in ListPosts(all, limit, tag, author) ==> e in all && Passes(e, tag, author)
  {
    var m := Matching(all, tag, author);
    var r := ListPosts(all, limit, tag, author);
    SortDescMembers(m, Created);
    assert forall e :: e in r ==> e in SortDesc(m, Created);
  }

  /** When the limit does not cut, every post that passes is listed. */
  lemma ListPostsComplete(all: seq<Entry>, limit: int, tag: Option<String>, author: Option<String>)
    requires limit >= |Matching(all, tag, author)|
    ensures forall e :: e in all && Passes(e, tag, author) ==> e in ListPosts(all, limit, tag, author)
  {
    SortDescMembers(Matching(all, tag, author), Created);
  }

  /** Newest first: each listed post was created no earlier than the next. */
  lemma ListPostsNewestFirst(all: seq<Entry>, limit: int, tag: Option<String>, author: Option<String>)
    ensures var r := ListPosts(all, limit, tag, author);
      forall i, j :: 0 <= i < j < |r| ==> LexLe(r[j].1.createdAt, r[i].1.createdAt)
  {
    var r := ListPosts(all, limit, tag, author);
    var s := SortDesc(Matching(all, tag, author), Created);
    forall i, j | 0 <= i < j < |r|
      ensures LexLe(r[j].1.createdAt, r[i].1.createdAt)
    {
      assert r[i] == s[i] && r[j] == s[j];
      OrderKeyMatchesComparison(r[j].1.createdAt, r[i].1.createdAt);
    }
  }

  /** Posts created at the same instant keep their load order. */
  lemma ListPostsStable(all: seq<Entry>, tag: Option<String>, author: Option<String>, k: int)
    ensures WithKey(ListPosts(all, |all|, tag, author), Created, k) == WithKey(Matching(all, tag, author), Created, k)
  {
    var s := SortDesc(Matching(all, tag, author), Created);
    assert ListPosts(all, |all|, tag, author) == s;
    SortDescStable(Matching(all, tag, author), Created, k);
  }

  /* ---------- Search ---------- */

  /** `needle` occurs in `hay` as a contiguous run (Python's `in` on
      strings). */
  predicate Contains(hay: String, needle: String)
    decreases |hay|
  {
    (|needle| <= |hay| && hay[..|needle|] == needle) || (hay != [] && Contains(hay[1..], needle))
  }

  /** `needle` starts at offset `i` of `hay`. */
  predicate OccursAt(hay: String, needle: String, i: nat) {
    i + |needle| <= |hay| && hay[i..i + |needle|] == needle
  }

  lemma OccursAtShift(hay: String, needle: String, i: nat)
    requires hay != []
    ensures OccursAt(hay[1..], needle, i) <==> OccursAt(hay, needle, i + 1)
  {
    if i + 1 + |needle| <= |hay| {
      assert hay[1..][i..i + |needle|] == hay[i + 1..i + 1 + |needle|];
    }
  }

  /** `Contains` is occurrence at some offset. */
  lemma {:induction false} ContainsAt(hay: String, needle: String)
    ensures Contains(hay, needle) <==> exists i: nat :: OccursAt(hay, needle, i)
    decreases |hay|
  {
    if |needle| <= |hay| && hay[..|needle|] == needle {
      assert OccursAt(hay, needle, 0);
    }
    if hay != [] {
      ContainsAt(hay[1..], needle);
      if Contains(hay[1..], needle) {
        var i: nat :| OccursAt(hay[1..], needle, i);
        OccursAtShift(hay, needle, i);
      }
      if exists i: nat :: OccursAt(hay, needle, i) {
        var i: nat :| OccursAt(hay, needle, i);
        if i > 0 {
          OccursAtShift(hay, needle, i - 1);
        } else {
          assert hay[0..|needle|] == hay[..|needle|];
        }
      }
    } else {
      if exists i: nat :: OccursAt(hay, needle, i) {
        var i: nat :| OccursAt(hay, needle, i);
        assert i == 0;
      }
    }
  }

  predicate InTitle(q: String, p: Post) {
    Contains(Lower(p.title), Lower(q))
  }

  predicate InContent(q: String, p: Post) {
    Contains(Lower(p.content), Lower(q))
  }

  predicate InTags(q: String, p: Post) {
    exists t :: t in p.tags && Contains(Lower(t), Lower(q))
  }

  predicate Hit(q: String, e: Entry) {
    InTitle(q, e.1) || InContent(q, e.1) || InTags(q, e.1)
  }

  /** `relevance_score`: 10 for the title, 5 for the content, 3 for any
      tag. */
  function Score(q: String, e: Entry): (n: int)
    ensures 0 <= n <= 18
    ensures Hit(q, e) <==> n >= 3
    ensures InTitle(q, e.1) <==> n >= 10
  {
    (if InTitle(q, e.1) then 10 else 0)
    + (if InContent(q, e.1) then 5 else 0)
    + (if InTags(q, e.1) then 3 else 0)
  }

  function ByScore(q: String): Entry -> int {
    e => Score(q, e)
  }

  function Hits(all: seq<Entry>, q: String): seq<Entry> {
    Filter(all, e => Hit(q, e))
  }

  /** `search_posts`: the matching posts, most relevant first, load order
      among equal scores. */
  function SearchPosts(all: seq<Entry>, q: String): (r: seq<Entry>)
    ensures |r| <= |all|
    ensures forall i, j :: 0 <= i < j < |r| ==> Score(q, r[i]) >= Score(q, r[j])
  {
    SortDesc(Hits(all, q), ByScore(q))
  }

  /** Exactly the posts that match are found, and each scores at least 3. */
  lemma SearchPostsExact(all: seq<Entry>, q: String)
    ensures forall e :: e in SearchPosts(all, q) <==> e in all && Hit(q, e)
    ensures forall e :: e in SearchPosts(all, q) ==> Score(q, e) >= 3
  {
    SortDescMembers(Hits(all, q), ByScore(q));
  }

  /** Results with equal scores keep their load order. */
  lemma SearchPostsStable(all: seq<Entry>, q: String, k: int)
    ensures WithKey(SearchPosts(all, q), ByScore(q), k) == WithKey(Hits(all, q), ByScore(q), k)
  {
    SortDescStable(Hits(all, q), ByScore(q), k);
  }

  lemma {:induction false} FilterAll<T(!new)>(xs: seq<T>, keep: T -> bool)
    requires forall x :: x in xs ==> keep(x)
    ensures Filter(xs, keep) == xs
  {
    if xs != [] {
      assert forall x :: x in xs[1..] ==> x in xs;
      FilterAll(xs[1..], keep);
      assert xs == [xs[0]] + xs[1..];
    }
  }

  /** The empty query matches every title, so every post is found. */
  lemma EmptyQueryFindsAll(all: seq<Entry>)
    ensures |SearchPosts(all, [])| == |all|
    ensures forall e :: e in SearchPosts(all, []) <==> e in all
  {
    forall e | e in all
      ensures Hit([], e)
    {
      assert Lower([]) == [];
      assert Lower(e.1.title)[..0] == [];
    }
    FilterAll(all, e => Hit([], e));
    SearchPostsExact(all, []);
  }

  /* ---------- Statistics ---------- */

  datatype Stats = Stats(
    totalPosts: nat,
    totalAuthors: nat,
    totalTags: nat,
    mostActiveAuthor: String,
    mostUsedTags: seq<String>,
    avgPostLength: nat)

  function Authors(all: seq<Entry>): (r: seq<String>)
    ensures |r| == |all|
    ensures forall i :: 0 <= i < |all| ==> r[i] == all[i].1.author
  {
    if all == [] then [] else [all[0].1.author] + Authors(all[1..])
  }

  /** Every tag of every post, repeats included (`all_tags.extend`). */
  function AllTags(all: seq<Entry>): (r: seq<String>)
    ensures forall i, t :: 0 <= i < |all| && t in all[i].1.tags ==> t in r
    ensures forall t :: t in r ==> exists i :: 0 <= i < |all| && t in all[i].1.tags
  {
    if all == [] then [] else all[0].1.tags + AllTags(all[1..])
  }

  function TotalLength(all: seq<Entry>): nat {
    if all == [] then 0 else |all[0].1.content| + TotalLength(all[1..])
  }

  /** The number of different values in `xs` (`len(set(xs))`). */
  function CountDistinct(xs: seq<String>): nat {
    |set x | x in xs|
  }

  lemma {:induction false} CountDistinctBound(xs: seq<String>)
    ensures CountDistinct(xs) <= |xs|
    ensures xs != [] ==> CountDistinct(xs) >= 1
  {
    if xs != [] {
      CountDistinctBound(xs[1..]);
      assert (set x | x in xs) == (set x | x in xs[1..]) + {xs[0]};
      assert xs[0] in (set x | x in xs);
    }
  }

  /** `author_counter.most_common(1)[0][0]`. */
  function MostActive(authors: seq<String>): (a: String)
    requires authors != []
    ensures a in authors
    ensures forall b :: b in authors ==> Count(authors, b) <= Count(authors, a)
  {
    MostCommonFirst(authors);
    MostCommonMembers(authors, 1);
    MostCommon(authors, 1)[0]
  }

  /** `get_statistics`. */
  function GetStatistics(all: seq<Entry>): (r: Stats)
    ensures all == [] ==> r == Stats(0, 0, 0, "None", [], 0)
    ensures all != [] ==> r.totalPosts == |all| && r.mostActiveAuthor in Authors(all)
    ensures all != [] ==> r.totalAuthors == |set a | a in Authors(all)| && r.totalTags == |set t | t in AllTags(all)|
    ensures all != [] ==> r.mostActiveAuthor == MostActive(Authors(all))
    ensures all != [] ==> r.mostUsedTags == MostCommon(AllTags(all), 10)
    ensures all != [] ==> r.avgPostLength == FloorMean(TotalLength(all), |all|)
  {
    if all == [] then Stats(0, 0, 0, "None", [], 0)
    else
      Stats(
        |all|,
        CountDistinct(Authors(all)),
        CountDistinct(AllTags(all)),
        MostActive(Authors(all)),
        MostCommon(AllTags(all), 10),
        FloorMean(TotalLength(all), |all|))
  }

  /** `total_content_length // len(all_posts)`: the mean rounded down. */
  function FloorMean(total: nat, n: nat): (avg: nat)
    requires n > 0
    ensures avg * n <= total < (avg + 1) * n
  {
    total / n
  }

  /** A non-empty blog has at least one author and at most one per post. */
  lemma StatisticsAuthors(all: seq<Entry>)
    requires all != []
    ensures 1 <= GetStatistics(all).totalAuthors <= GetStatistics(all).totalPosts
  {
    CountDistinctBound(Authors(all));
  }

  /** The tag count is zero exactly when no post has a tag. */
  lemma StatisticsNoTags(all: seq<Entry>)
    requires all != []
    ensures GetStatistics(all).totalTags == 0 <==> forall i :: 0 <= i < |all| ==> all[i].1.tags == []
  {
    var r := GetStatistics(all);
    assert r.totalTags == CountDistinct(AllTags(all));
    CountDistinctZero(AllTags(all));
    AllTagsEmpty(all);
  }

  lemma CountDistinctZero(xs: seq<String>)
    ensures CountDistinct(xs) == 0 <==> xs == []
  {
    if xs != [] {
      var distinct := set x | x in xs;
      assert xs[0] in distinct;
      assert |distinct - {xs[0]}| + 1 == |distinct|;
    } else {
      assert (set x | x in xs) == {};
    }
  }

  lemma {:induction false} AllTagsEmpty(all: seq<Entry>)
    ensures AllTags(all) == [] <==> forall i :: 0 <= i < |all| ==> all[i].1.tags == []
  {
    if all != [] {
      AllTagsEmpty(all[1..]);
      assert forall i :: 1 <= i < |all| ==> all[i] == all[1..][i - 1];
    }
  }

  /** At most ten tags, each used somewhere, none twice, by non-increasing
      use, and no tag left out is used more than one shown. */
  lemma MostUsedTagsRanked(all: seq<Entry>)
    requires all != []
    ensures var r := GetStatistics(all).mostUsedTags; var tags := AllTags(all);
      && |r| == Min(10, |Distinct(tags)|)
      && NoDuplicates(r)
      && (forall t :: t in r ==> t in tags)
      && (forall i, j :: 0 <= i < j < |r| ==> Count(tags, r[i]) >= Count(tags, r[j]))
      && (forall x, y :: x in r && y in tags && y !in r ==> Count(tags, y) <= Count(tags, x))
  {
    MostCommonMembers(AllTags(all), 10);
    MostCommonRanked(AllTags(all), 10);
  }

  /* ---------- Export ---------- */

  /** The two ways `export_posts` can fail: the extension lookup raises
      `KeyError`; the dispatch raises `ValueError`. */
  datatype ExportError = KeyError(key: String) | ValueError(message: String)

  /** The extension table of `_generate_export_filename`. */
  function Extension(format: String): Option<String> {
    if format == "markdown" then Some("md")
    else if format == "html" then Some("html")
    else if format == "json" then Some("json")
    else None
  }

  /** `_generate_export_filename`. */
  function ExportFilename(p: Post, format: String): (r: Result<String, ExportError>)
    ensures r.Err? <==> Extension(format).None?
    ensures r.Err? ==> r.error == KeyError(format)
  {
    match Extension(format)
    case None => Err(KeyError(format))
    case Some(ext) => Ok(NameFor(p, ext))
  }

  /** The export file name of a post for a known extension. */
  function NameFor(p: Post, ext: String): String {
    ExportName(DateString(p.createdAt), SanitizeFilename(p.title), ext)
  }

  function ExportName(date: String, safe: String, ext: String): String {
    date + "-" + safe + "." + ext
  }

  /** `f` reads as a ten-character date, `-`, a name, `.` and an
      extension, and that `.` is the first one in `f`. */
  predicate SplitsAs(f: String, date: String, safe: String, ext: String) {
    && |f| == 12 + |safe| + |ext|
    && f[..10] == date
    && f[10] == '-'
    && f[11..|f| - |ext| - 1] == safe
    && f[|f| - |ext| - 1] == '.'
    && f[|f| - |ext|..] == ext
    && '.' !in f[..|f| - |ext| - 1]
  }

  /** A name built from a ten-character date and a title without `.`
      splits back into its parts at its first `.`. */
  lemma ExportNameParts(date: String, safe: String, ext: String)
    requires |date| == 10 && '.' !in date && '.' !in safe
    ensures SplitsAs(ExportName(date, safe, ext), date, safe, ext)
  {
    var f := ExportName(date, safe, ext);
    assert f[..|f| - |ext| - 1] == date + "-" + safe;
  }

  lemma DateStringNoDot(t: DateTime)
    ensures |DateString(t)| == 10 && '.' !in DateString(t)
  {
    var d := DateString(t);
    assert AllChars(Digits(t.year, 4), IsDigit);
    assert AllChars(Digits(t.month, 2), IsDigit);
    assert AllChars(Digits(t.day, 2), IsDigit);
    assert d == Digits(t.year, 4) + "-" + Digits(t.month, 2) + "-" + Digits(t.day, 2);
  }

  lemma SafeNameNoDot(title: String)
    ensures '.' !in SanitizeFilename(title)
  {
    NoDot(SanitizeFilename(title));
  }

  lemma NoDot(s: String)
    requires AllChars(s, IsFilenameChar)
    ensures '.' !in s
  {
    assert !IsFilenameChar('.');
  }

  /** An export file name reads back as the creation date, the sanitised
      title and the extension, split at its first `.`. */
  lemma ExportFilenameShape(p: Post, format: String)
    requires Extension(format).Some?
    ensures SplitsAs(ExportFilename(p, format).value, DateString(p.createdAt), SanitizeFilename(p.title), Extension(format).value)
  {
    var date := DateString(p.createdAt);
    var safe := SanitizeFilename(p.title);
    var ext := Extension(format).value;
    assert ExportFilename(p, format).value == NameFor(p, ext) == ExportName(date, safe, ext);
    DateStringNoDot(p.createdAt);
    SafeNameNoDot(p.title);
    ExportNameParts(date, safe, ext);
  }

  /** `export_posts` without the writing: the file names, in load order.
      With no posts nothing is looked up, so no format is rejected; with
      posts an unknown format fails at the extension lookup, before the
      dispatch that would raise `ValueError`. */
  function ExportPosts(all: seq<Entry>, format: String): (r: Result<seq<String>, ExportError>)
    ensures all == [] ==> r == Ok([])
    ensures r.Err? <==> all != [] && Extension(format).None?
    ensures r.Err? ==> r.error == KeyError(format)
    ensures r.Ok? ==> |r.value| == |all|
    ensures r.Ok? ==> forall i :: 0 <= i < |all| ==> Ok(r.value[i]) == ExportFilename(all[i].1, format)
  {
    if all == [] then Ok([])
    else
      match Extension(format)
      case None => Err(KeyError(format))
      case Some(ext) => Ok(Map(all, (e: Entry) => NameFor(e.1, ext)))
  }
}
