/** The string helpers of the utilities file: post identifiers, tag
    cleaning, file names, truncation, word counts, validators and summaries. */
module Utils {
  import opened Text
  import opened Timestamps
  import opened Lists

  function Min(a: int, b: int): int {
    if a <= b then a else b
  }

  function Max(a: int, b: int): int {
    if a >= b then a else b
  }

  // ---------------------------------------------------------------------
  // Post identifiers

  /** A character a post identifier may contain: a lower-case word character
      or a hyphen. */
  predicate IsSlugChar(c: char) {
    (IsWordChar(c) && LowerChar(c) == c) || c == '-'
  }

  /** The shape of every identifier: slug characters only, no hyphen at
      either end, no two hyphens in a row (and hence no whitespace). */
  predicate IsSlug(s: String) {
    && AllChars(s, IsSlugChar)
    && (s != [] ==> s[0] != '-' && s[|s| - 1] != '-')
    && NoAdjacent(s, IsHyphen)
  }

  /** The title-derived part of `generate_post_id`: lower-case, strip,
      drop characters outside `[\w\s-]`, turn `[-\s]+` runs into one
      hyphen, strip hyphens. */
  function SlugCore(title: String): String {
    Trim(Collapse(Keep(Trim(Lower(title), IsSpace), IsSlugSource), IsHyphenOrSpace, '-'), IsHyphen)
  }

  predicate IsLowerFixed(c: char) {
    LowerChar(c) == c
  }

  predicate IsLowerSlugSource(c: char) {
    IsSlugSource(c) && IsLowerFixed(c)
  }

  lemma LowerStripIsLower(title: String)
    ensures AllChars(Trim(Lower(title), IsSpace), IsLowerFixed)
  {
    var a := Lower(title);
    assert AllChars(a, IsLowerFixed);
    TrimPreservesChars(a, IsSpace, IsLowerFixed);
  }

  lemma KeepIsLowerSlugSource(b: String)
    requires AllChars(b, IsLowerFixed)
    ensures AllChars(Keep(b, IsSlugSource), IsLowerSlugSource)
  {
    KeepPreserves(b, IsSlugSource, IsLowerFixed);
  }

  lemma CollapseIsSlugChars(c: String)
    requires AllChars(c, IsLowerSlugSource)
    ensures var d := Collapse(c, IsHyphenOrSpace, '-'); AllChars(d, IsSlugChar) && NoAdjacent(d, IsHyphen)
  {
    var d := Collapse(c, IsHyphenOrSpace, '-');
    CollapseChars(c, IsHyphenOrSpace, '-', IsLowerSlugSource);
    NoAdjacentWeaken(d, IsHyphenOrSpace, IsHyphen);
  }

  lemma TrimHyphensIsSlug(d: String)
    requires AllChars(d, IsSlugChar) && NoAdjacent(d, IsHyphen)
    ensures IsSlug(Trim(d, IsHyphen))
  {
    TrimPreservesChars(d, IsHyphen, IsSlugChar);
    TrimPreservesNoAdjacent(d, IsHyphen, IsHyphen);
  }

  /** Whatever the title, the derived text has the identifier shape. */
  lemma SlugCoreIsSlug(title: String)
    ensures IsSlug(SlugCore(title))
  {
    var b := Trim(Lower(title), IsSpace);
    LowerStripIsLower(title);
    var c := Keep(b, IsSlugSource);
    KeepIsLowerSlugSource(b);
    var d := Collapse(c, IsHyphenOrSpace, '-');
    CollapseIsSlugChars(c);
    TrimHyphensIsSlug(d);
  }

  /** The clock fallback `post-<YYYYMMDDHHMMSS>` has the identifier shape too. */
  lemma FallbackIsSlug(now: DateTime)
    ensures IsSlug("post-" + CompactStamp(now))
  {
    var stamp := CompactStamp(now);
    var r := "post-" + stamp;
    assert forall i :: 5 <= i < |r| ==> r[i] == stamp[i - 5] && IsDigit(r[i]);
    assert AllChars(r, IsSlugChar);
    assert NoAdjacent(r, IsHyphen);
  }

  /** `generate_post_id`: the slug of the title, or `post-<YYYYMMDDHHMMSS>`
      read from the clock `now` when nothing of the title survives. */
  function GeneratePostId(title: String, now: DateTime): (r: String)
    ensures r != [] && IsSlug(r)
    ensures SlugCore(title) != [] ==> r == SlugCore(title)
    ensures SlugCore(title) == [] ==> r == "post-" + CompactStamp(now)
  {
    var id := SlugCore(title);
    SlugCoreIsSlug(title);
    FallbackIsSlug(now);
    if id != [] then id else "post-" + CompactStamp(now)
  }

  /** An identifier is its own slug: the derivation is idempotent. */
  lemma SlugCoreOfSlug(s: String)
    requires IsSlug(s)
    ensures SlugCore(s) == s
  {
    assert Lower(s) == s;
    TrimUnchanged(s, IsSpace);
    assert Keep(s, IsSlugSource) == s;
    NoAdjacentHyphenOrSpace(s);
    CollapseUnchanged(s, IsHyphenOrSpace, '-');
    TrimUnchanged(s, IsHyphen);
  }

  lemma NoAdjacentHyphenOrSpace(s: String)
    requires IsSlug(s)
    ensures NoAdjacent(s, IsHyphenOrSpace)
    ensures forall i :: 0 <= i < |s| && IsHyphenOrSpace(s[i]) ==> s[i] == '-'
  {
    assert forall i :: 0 <= i < |s| ==> IsSlugChar(s[i]);
  }

  /** Feeding an identifier back in as a title yields the same identifier,
      whatever the clock says (this covers the clock fallback too). */
  lemma GeneratePostIdIdempotent(title: String, now: DateTime, later: DateTime)
    ensures GeneratePostId(GeneratePostId(title, now), later) == GeneratePostId(title, now)
  {
    var r := GeneratePostId(title, now);
    SlugCoreOfSlug(r);
  }

  // ---------------------------------------------------------------------
  // Tags

  predicate IsTagChar(c: char) {
    IsWordChar(c) || c == ' ' || c == '-'
  }

  /** What every tag returned by `validate_tags` looks like. */
  predicate IsCleanTag(t: String) {
    && t != []
    && !IsSpace(t[0]) && !IsSpace(t[|t| - 1])
    && AllChars(t, IsTagChar)
    && NoAdjacent(t, IsSpace)
  }

  /** One comma-separated piece after cleaning; empty when it is dropped. */
  function CleanTag(piece: String): String {
    var t := Trim(piece, IsSpace);
    if t == [] then [] else Trim(Collapse(Keep(t, IsSlugSource), IsSpace, ' '), IsSpace)
  }

  lemma CollapsedTagChars(c: String)
    requires AllChars(c, IsSlugSource)
    ensures var d := Collapse(c, IsSpace, ' '); AllChars(d, IsTagChar) && NoAdjacent(d, IsSpace)
  {
    CollapseChars(c, IsSpace, ' ', IsSlugSource);
  }

  lemma TrimmedTagIsClean(d: String)
    requires AllChars(d, IsTagChar) && NoAdjacent(d, IsSpace) && Trim(d, IsSpace) != []
    ensures IsCleanTag(Trim(d, IsSpace))
  {
    TrimPreservesChars(d, IsSpace, IsTagChar);
    TrimPreservesNoAdjacent(d, IsSpace, IsSpace);
  }

  /** Every non-empty cleaned piece is a clean tag. */
  lemma CleanTagIsClean(piece: String)
    requires CleanTag(piece) != []
    ensures IsCleanTag(CleanTag(piece))
  {
    var t := Trim(piece, IsSpace);
    var c := Keep(t, IsSlugSource);
    KeepChars(t, IsSlugSource);
    CollapsedTagChars(c);
    TrimmedTagIsClean(Collapse(c, IsSpace, ' '));
  }

  /** The non-empty images of `xs` under `f`, as a set. */
  function NonEmptyImages(xs: seq<String>, f: String -> String): set<String> {
    set k | 0 <= k < |xs| && f(xs[k]) != [] :: f(xs[k])
  }

  /** The tags `validate_tags` returns, as a set: the cleaned non-empty pieces
      of the comma-separated input. */
  function TagSet(input: String): set<String> {
    NonEmptyImages(Split(input, ','), CleanTag)
  }

  lemma CleanedSetClean(pieces: seq<String>)
    ensures forall t :: t in NonEmptyImages(pieces, CleanTag) ==> IsCleanTag(t)
  {
    forall k | 0 <= k < |pieces| && CleanTag(pieces[k]) != []
      ensures IsCleanTag(CleanTag(pieces[k]))
    {
      CleanTagIsClean(pieces[k]);
    }
  }

  /** The loop of `validate_tags`: transform each piece and keep the
      non-empty results. */
  method CollectNonEmpty(xs: seq<String>, f: String -> String) returns (ys: seq<String>)
    ensures forall t :: t in ys <==> t in NonEmptyImages(xs, f)
  {
    ys := [];
    var i := 0;
    while i < |xs|
      invariant 0 <= i <= |xs|
      invariant forall t :: t in ys ==> t in NonEmptyImages(xs, f)
      invariant forall k :: 0 <= k < i && f(xs[k]) != [] ==> f(xs[k]) in ys
    {
      var y := f(xs[i]);
      if y != [] {
        ys := ys + [y];
      }
      i := i + 1;
    }
  }

  /** `list(set(...))`: each member once, in an order the set chooses. */
  method ListOfSet(pool: set<String>) returns (items: seq<String>)
    ensures forall t :: t in items <==> t in pool
    ensures forall i, j :: 0 <= i < j < |items| ==> items[i] != items[j]
  {
    items := [];
    var rest := pool;
    while rest != {}
      invariant rest <= pool
      invariant forall t :: t in items <==> t in pool && t !in rest
      invariant forall a, b :: 0 <= a < b < |items| ==> items[a] != items[b]
      decreases |rest|
    {
      var t :| t in rest;
      items := items + [t];
      rest := rest - {t};
    }
  }

  /** `validate_tags`: split on commas, clean each piece, drop the empty ones
      and remove duplicates. The program returns `list(set(tags))`, whose
      order is whatever the set yields; here that order is an arbitrary
      choice. */
  method ValidateTags(input: String) returns (tags: seq<String>)
    ensures input == [] ==> tags == []
    ensures forall t :: t in tags <==> t in TagSet(input)
    ensures forall i, j :: 0 <= i < j < |tags| ==> tags[i] != tags[j]
    ensures forall t :: t in tags ==> IsCleanTag(t)
  {
    if input == [] {
      return [];
    }
    var cleaned := CollectNonEmpty(Split(input, ','), CleanTag);
    CleanedSetClean(Split(input, ','));
    tags := ListOfSet(set t | t in cleaned);
  }

  // ---------------------------------------------------------------------
  // File names

  const MaxFilenameLength: nat := 100

  predicate IsFilenameChar(c: char) {
    IsAscii(c) && (IsWordChar(c) || c == '-')
  }

  /** ASCII word characters and single hyphens, no hyphen at either end. */
  predicate IsFilenameShape(s: String) {
    && AllChars(s, IsFilenameChar)
    && NoAdjacent(s, IsHyphen)
    && (s != [] ==> s[0] != '-' && s[|s| - 1] != '-')
  }

  predicate IsAsciiSlugSource(c: char) {
    IsAscii(c) && IsSlugSource(c)
  }

  /** `sanitize_filename` before the empty and length checks, applied to the
      NFKD-normalised name: drop non-ASCII, drop characters outside
      `[\w\s-]`, turn `[-\s]+` runs into one hyphen, strip hyphens. Case is
      kept. */
  function SanitizeCore(name: String): String {
    Trim(Collapse(Keep(Keep(name, IsAscii), IsSlugSource), IsHyphenOrSpace, '-'), IsHyphen)
  }

  lemma AsciiSlugSource(name: String)
    ensures AllChars(Keep(Keep(name, IsAscii), IsSlugSource), IsAsciiSlugSource)
  {
    var a := Keep(name, IsAscii);
    KeepChars(name, IsAscii);
    KeepPreserves(a, IsSlugSource, IsAscii);
  }

  lemma CollapseIsFilenameChars(c: String)
    requires AllChars(c, IsAsciiSlugSource)
    ensures var d := Collapse(c, IsHyphenOrSpace, '-'); AllChars(d, IsFilenameChar) && NoAdjacent(d, IsHyphen)
  {
    var d := Collapse(c, IsHyphenOrSpace, '-');
    CollapseChars(c, IsHyphenOrSpace, '-', IsAsciiSlugSource);
    NoAdjacentWeaken(d, IsHyphenOrSpace, IsHyphen);
  }

  lemma TrimHyphensIsFilename(d: String)
    requires AllChars(d, IsFilenameChar) && NoAdjacent(d, IsHyphen)
    ensures IsFilenameShape(Trim(d, IsHyphen))
  {
    TrimPreservesChars(d, IsHyphen, IsFilenameChar);
    TrimPreservesNoAdjacent(d, IsHyphen, IsHyphen);
  }

  lemma SanitizeCoreShape(name: String)
    ensures IsFilenameShape(SanitizeCore(name))
  {
    var c := Keep(Keep(name, IsAscii), IsSlugSource);
    AsciiSlugSource(name);
    CollapseIsFilenameChars(c);
    TrimHyphensIsFilename(Collapse(c, IsHyphenOrSpace, '-'));
  }

  /** The name used when nothing of the input survives. */
  function OrUntitled(f: String): (g: String)
    requires IsFilenameShape(f)
    ensures g != [] && IsFilenameShape(g)
    ensures f != [] ==> g == f
  {
    if f != [] then f
    else
      var u := "untitled";
      assert forall i :: 0 <= i < |u| ==> 'a' <= u[i] <= 'z';
      u
  }

  /** The cut to `MaxFilenameLength` characters. */
  function Cut(g: String): (h: String)
    requires g != [] && IsFilenameShape(g)
    ensures 1 <= |h| <= MaxFilenameLength && h == PyTake(g, MaxFilenameLength)
    ensures AllChars(h, IsFilenameChar) && NoAdjacent(h, IsHyphen) && h[0] != '-'
  {
    if |g| > MaxFilenameLength then
      PrefixPreserves(g, MaxFilenameLength, IsHyphen, IsFilenameChar);
      g[..MaxFilenameLength]
    else g
  }

  /** `sanitize_filename` (after normalisation): ASCII word characters and
      single hyphens, 1 to 100 characters, never starting with a hyphen;
      `untitled` when nothing survives; otherwise the first 100 characters
      of the cleaned name. */
  function SanitizeFilename(name: String): (r: String)
    ensures 1 <= |r| <= MaxFilenameLength
    ensures AllChars(r, IsFilenameChar)
    ensures r[0] != '-'
    ensures NoAdjacent(r, IsHyphen)
    ensures SanitizeCore(name) == [] ==> r == "untitled"
    ensures SanitizeCore(name) != [] ==> r == PyTake(SanitizeCore(name), MaxFilenameLength)
  {
    SanitizeCoreShape(name);
    Cut(OrUntitled(SanitizeCore(name)))
  }

  lemma FilenameCharClasses(c: char)
    requires IsFilenameChar(c)
    ensures IsAscii(c) && IsSlugSource(c) && !IsSpace(c)
  {
  }

  lemma SafeNameKeeps(name: String)
    requires AllChars(name, IsFilenameChar)
    ensures Keep(Keep(name, IsAscii), IsSlugSource) == name
  {
    forall i | 0 <= i < |name|
      ensures IsAscii(name[i]) && IsSlugSource(name[i])
    {
      FilenameCharClasses(name[i]);
    }
  }

  lemma SafeNameCollapse(name: String)
    requires AllChars(name, IsFilenameChar) && NoAdjacent(name, IsHyphen)
    ensures Collapse(name, IsHyphenOrSpace, '-') == name
  {
    forall i | 0 <= i < |name|
      ensures IsHyphenOrSpace(name[i]) <==> name[i] == '-'
    {
      FilenameCharClasses(name[i]);
    }
    CollapseUnchanged(name, IsHyphenOrSpace, '-');
  }

  lemma SafeNameCore(name: String)
    requires IsFilenameShape(name)
    ensures SanitizeCore(name) == name
  {
    SafeNameKeeps(name);
    SafeNameCollapse(name);
    TrimUnchanged(name, IsHyphen);
  }

  /** A name that is already safe (any letter case) comes back unchanged. */
  lemma SanitizeKeepsSafeName(name: String)
    requires 1 <= |name| <= MaxFilenameLength && IsFilenameShape(name)
    ensures SanitizeFilename(name) == name
  {
    SafeNameCore(name);
    assert OrUntitled(name) == name;
    assert Cut(name) == name;
  }

  /** The cut to 100 characters comes after the hyphen strip, so it can leave
      a trailing hyphen. */
  lemma TruncationCanEndWithHyphen(name: String)
    requires |name| > MaxFilenameLength && name[MaxFilenameLength - 1] == '-'
    requires IsFilenameShape(name)
    ensures var r := SanitizeFilename(name); r == name[..MaxFilenameLength] && r[|r| - 1] == '-'
  {
    SafeNameCore(name);
  }

  // ---------------------------------------------------------------------
  // Truncation, word counts, validation

  /** `truncate_text`: unchanged when it fits, otherwise `text[:max_length-3]`
      followed by an ellipsis. */
  function TruncateText(text: String, maxLength: int): (r: String)
    ensures |text| <= maxLength ==> r == text
    ensures |text| > maxLength ==> |r| >= 3 && r[|r| - 3..] == "..." && |r| - 3 <= |text| && r[..|r| - 3] == text[..|r| - 3]
    ensures |text| > maxLength >= 3 ==> |r| == maxLength
    ensures |text| > maxLength && maxLength < 3 ==> |r| > maxLength
  {
    if |text| <= maxLength then text else PyTake(text, maxLength - 3) + "..."
  }

  /** Words are counted at each step from whitespace (or the start) into a
      non-whitespace character. */
  function CountFrom(s: String, inWord: bool): nat {
    if s == [] then 0
    else if IsSpace(s[0]) then CountFrom(s[1..], false)
    else (if inWord then 0 else 1) + CountFrom(s[1..], true)
  }

  /** `word_count`: `len(text.split())`. */
  function WordCount(s: String): nat {
    CountFrom(s, false)
  }

  /** No words exactly when the text is blank. */
  lemma {:induction false} WordCountZeroIffBlank(s: String)
    ensures WordCount(s) == 0 <==> AllChars(s, IsSpace)
    decreases |s|
  {
    if s != [] {
      WordCountZeroIffBlank(s[1..]);
      if IsSpace(s[0]) {
        assert AllChars(s, IsSpace) <==> AllChars(s[1..], IsSpace);
      }
    }
  }

  function EndsInWord(s: String, inWord: bool): bool {
    if s == [] then inWord else !IsSpace(s[|s| - 1])
  }

  lemma {:induction false} CountFromAppend(a: String, b: String, inWord: bool)
    ensures CountFrom(a + b, inWord) == CountFrom(a, inWord) + CountFrom(b, EndsInWord(a, inWord))
    decreases |a|
  {
    if a == [] {
      assert a + b == b;
    } else {
      var w := !IsSpace(a[0]);
      assert (a + b)[0] == a[0];
      assert (a + b)[1..] == a[1..] + b;
      CountFromAppend(a[1..], b, w);
      assert EndsInWord(a[1..], w) == EndsInWord(a, inWord) by {
        if |a| > 1 {
          assert a[1..][|a| - 2] == a[|a| - 1];
        }
      }
    }
  }

  /** Words on either side of a whitespace character are counted separately. */
  lemma WordCountSeparated(a: String, c: char, b: String)
    requires IsSpace(c)
    ensures WordCount(a + [c] + b) == WordCount(a) + WordCount(b)
  {
    assert a + [c] + b == a + ([c] + b);
    CountFromAppend(a, [c] + b, false);
    assert ([c] + b)[0] == c;
    assert ([c] + b)[1..] == b;
  }

  lemma {:induction false} CountFromBound(s: String, inWord: bool)
    ensures 2 * CountFrom(s, inWord) <= |s| + (if inWord then 0 else 1)
  {
    if s != [] {
      CountFromBound(s[1..], !IsSpace(s[0]));
    }
  }

  /** A text of n characters has at most (n + 1) / 2 words. */
  lemma WordCountBound(s: String)
    ensures 2 * WordCount(s) <= |s| + 1
  {
    CountFromBound(s, false);
  }

  lemma {:induction false} CountFromWithinWord(w: String)
    requires forall i :: 0 <= i < |w| ==> !IsSpace(w[i])
    ensures CountFrom(w, true) == 0
  {
    if w != [] {
      assert !IsSpace(w[0]);
      CountFromWithinWord(w[1..]);
    }
  }

  /** A run of non-whitespace characters is one word. */
  lemma WordCountOneWord(w: String)
    requires w != [] && forall i :: 0 <= i < |w| ==> !IsSpace(w[i])
    ensures WordCount(w) == 1
  {
    assert !IsSpace(w[0]);
    CountFromWithinWord(w[1..]);
  }

  /** Python's floor division `a // b`. */
  function FloorDiv(a: int, b: int): int
    requires b != 0
  {
    if b > 0 then a / b else (-a) / (-b)
  }

  /** `reading_time`: whole minutes at `wordsPerMinute`, never less than one.
      A zero rate is a division by zero in the program. */
  function ReadingTime(text: String, wordsPerMinute: int): (r: int)
    requires wordsPerMinute != 0
    ensures r >= 1
    ensures wordsPerMinute > 0 && WordCount(text) >= wordsPerMinute ==>
              r * wordsPerMinute <= WordCount(text) < (r + 1) * wordsPerMinute
    ensures wordsPerMinute > 0 && WordCount(text) < 2 * wordsPerMinute ==> r == 1
    ensures wordsPerMinute < 0 ==> r == 1
  {
    Max(1, FloorDiv(WordCount(text), wordsPerMinute))
  }

  const MinTitleLength: nat := 3
  const MaxTitleLength: nat := 200
  const MinContentLength: nat := 10

  /** `validate_post_title`. */
  function ValidatePostTitle(title: String): (ok: bool)
    ensures ok <==> MinTitleLength <= |Trim(title, IsSpace)| <= MaxTitleLength
    ensures ok ==> exists i :: 0 <= i < |title| && !IsSpace(title[i])
  {
    if title == [] || Trim(title, IsSpace) == [] then false
    else if |Trim(title, IsSpace)| < MinTitleLength then false
    else if |Trim(title, IsSpace)| > MaxTitleLength then false
    else true
  }

  /** `validate_post_content`. */
  function ValidatePostContent(content: String): (ok: bool)
    ensures ok <==> |Trim(content, IsSpace)| >= MinContentLength
    ensures ok ==> WordCount(content) >= 1
  {
    WordCountZeroIffBlank(content);
    if content == [] || Trim(content, IsSpace) == [] then false
    else if |Trim(content, IsSpace)| < MinContentLength then false
    else true
  }

  // ---------------------------------------------------------------------
  // Summaries

  /** `re.sub(r'\s+', ' ', content.strip())`. */
  function Normalize(content: String): String {
    Collapse(Trim(content, IsSpace), IsSpace, ' ')
  }

  /** What normalised text looks like: nothing blank at either end, and
      every blank a single space between non-blank characters. */
  predicate IsNormal(c: String) {
    && (c == [] || (!IsSpace(c[0]) && !IsSpace(c[|c| - 1])))
    && NoAdjacent(c, IsSpace)
    && (forall i :: 0 <= i < |c| && IsSpace(c[i]) ==> c[i] == ' ')
  }

  /** Normalised text has the normal shape, and is empty exactly for blank
      input. */
  lemma NormalizeShape(content: String)
    ensures IsNormal(Normalize(content))
    ensures Normalize(content) == [] <==> AllChars(content, IsSpace)
  {
    CollapseTrimmed(Trim(content, IsSpace));
  }

  lemma CollapseTrimmed(t: String)
    requires t == [] || (!IsSpace(t[0]) && !IsSpace(t[|t| - 1]))
    ensures var c := Collapse(t, IsSpace, ' '); IsNormal(c) && (c == [] <==> t == [])
  {
    if t != [] {
      CollapseLast(t, IsSpace, ' ');
    }
  }

  /** Text of the normal shape is left alone. */
  lemma NormalIsFixed(c: String)
    requires IsNormal(c)
    ensures Normalize(c) == c
  {
    NormalTrimFixed(c);
    NormalCollapseFixed(c);
  }

  lemma NormalTrimFixed(c: String)
    requires IsNormal(c)
    ensures Trim(c, IsSpace) == c
  {
    TrimUnchanged(c, IsSpace);
  }

  lemma NormalCollapseFixed(c: String)
    requires IsNormal(c)
    ensures Collapse(c, IsSpace, ' ') == c
  {
    CollapseUnchanged(c, IsSpace, ' ');
  }

  /** Normalising twice changes nothing. */
  lemma NormalizeIdempotent(content: String)
    ensures Normalize(Normalize(content)) == Normalize(content)
  {
    NormalizeShape(content);
    NormalIsFixed(Normalize(content));
  }

  /** The first sentences, each followed by the period `split` removed. */
  function Dotted(ss: seq<String>): String {
    if ss == [] then [] else ss[0] + "." + Dotted(ss[1..])
  }

  /** How many leading sentences the loop of `extract_summary` accepts when
      `used` characters are already taken: it stops at the first sentence
      whose addition (with its period) would pass `limit`. */
  function FitCount(ss: seq<String>, used: int, limit: int): (k: nat)
    ensures k <= |ss|
    ensures used <= limit ==> used + |Dotted(ss[..k])| <= limit
    ensures k < |ss| ==> used + |Dotted(ss[..k])| + |ss[k]| + 1 > limit
    decreases |ss|
  {
    if ss == [] then 0
    else if used + |ss[0]| + 1 <= limit then
      var k := 1 + FitCount(ss[1..], used + |ss[0]| + 1, limit);
      assert ss[..k][1..] == ss[1..][..k - 1];
      k
    else 0
  }

  /** The accepted sentences, with their periods, are a prefix of the text
      they were split from. */
  lemma {:induction false} DottedPrefix(ss: seq<String>, k: nat)
    requires k < |ss|
    ensures Dotted(ss[..k]) + Join(ss[k..], '.') == Join(ss, '.')
  {
    if k > 0 {
      assert ss[..k][1..] == ss[1..][..k - 1];
      DottedPrefix(ss[1..], k - 1);
      assert ss[1..][k - 1..] == ss[k..];
    } else {
      assert ss[k..] == ss;
    }
  }

  lemma DottedEndsWithPeriod(ss: seq<String>)
    requires ss != []
    ensures var d := Dotted(ss); d != [] && d[|d| - 1] == '.'
    decreases |ss|
  {
    if |ss| > 1 {
      DottedEndsWithPeriod(ss[1..]);
    }
  }

  /** The part of `extract_summary` after normalisation. */
  function SummaryOf(c: String, maxLength: int): (r: String)
    ensures |c| <= maxLength ==> r == c
    ensures maxLength >= 3 ==> |r| <= maxLength
  {
    if |c| <= maxLength then c else Trim(Unstripped(c, maxLength), IsSpace)
  }

  /** The summary of a text that does not fit, before the final strip. */
  function Unstripped(c: String, maxLength: int): (u: String)
    ensures maxLength >= 3 ==> |u| <= maxLength
  {
    var ss := Split(c, '.');
    var summary := Dotted(ss[..FitCount(ss, 0, maxLength)]);
    if summary == [] then PyTake(c, maxLength - 3) + "..." else summary
  }

  /** `extract_summary`: the normalised text when it fits; otherwise the
      longest run of whole sentences that fits, or, when not even the first
      sentence fits, a cut with an ellipsis. The result is stripped. */
  function ExtractSummary(content: String, maxLength: int): (r: String)
    ensures |Normalize(content)| <= maxLength ==> r == Normalize(content)
    ensures maxLength >= 3 ==> |r| <= maxLength
  {
    SummaryOf(Normalize(content), maxLength)
  }

  lemma {:induction false} DottedLength(ss: seq<String>)
    requires ss != []
    ensures |Dotted(ss)| == |Join(ss, '.')| + 1
    decreases |ss|
  {
    if |ss| > 1 {
      DottedLength(ss[1..]);
    }
  }

  /** The sentence-run case on any text `c`. */
  lemma SentenceRun(c: String, maxLength: int)
    requires |c| > maxLength
    requires FitCount(Split(c, '.'), 0, maxLength) > 0
    ensures var ss := Split(c, '.'); var k := FitCount(ss, 0, maxLength);
      var d := Dotted(ss[..k]);
      && k < |ss|
      && |d| <= maxLength
      && d != [] && d <= c && d[|d| - 1] == '.'
      && |d| + |ss[k]| + 1 > maxLength
  {
    var ss := Split(c, '.');
    var k := FitCount(ss, 0, maxLength);
    if k == |ss| {
      assert ss[..k] == ss;
      DottedLength(ss);
      assert false;
    }
    var d := Dotted(ss[..k]);
    DottedPrefix(ss, k);
    DottedEndsWithPeriod(ss[..k]);
  }

  /** When some sentences fit, the summary is exactly those sentences: a
      prefix of the normalised text ending at one of its periods, which the
      next sentence would have pushed past the limit. */
  lemma SummaryWholeSentences(c: String, maxLength: int)
    requires c == [] || !IsSpace(c[0])
    requires |c| > maxLength && FitCount(Split(c, '.'), 0, maxLength) > 0
    ensures var r := SummaryOf(c, maxLength);
      var ss := Split(c, '.'); var k := FitCount(ss, 0, maxLength);
      && k < |ss|
      && |r| <= maxLength
      && r == Dotted(ss[..k])
      && r != [] && r <= c && r[|r| - 1] == '.'
      && |r| + |ss[k]| + 1 > maxLength
  {
    SentenceRun(c, maxLength);
    var ss := Split(c, '.');
    var d := Dotted(ss[..FitCount(ss, 0, maxLength)]);
    UnstrippedRun(c, maxLength);
    assert d[0] == c[0];
    TrimUnchanged(d, IsSpace);
    assert SummaryOf(c, maxLength) == Trim(d, IsSpace) == d;
  }

  lemma UnstrippedRun(c: String, maxLength: int)
    requires FitCount(Split(c, '.'), 0, maxLength) > 0
    ensures var ss := Split(c, '.');
      Unstripped(c, maxLength) == Dotted(ss[..FitCount(ss, 0, maxLength)])
  {
    var ss := Split(c, '.');
    var k := FitCount(ss, 0, maxLength);
    assert ss[..k] != [] && ss[..k][0] == ss[0];
  }

  lemma EllipsisCut(c: String, maxLength: int)
    requires c == [] || !IsSpace(c[0])
    ensures var e := PyTake(c, maxLength - 3) + "...";
      Trim(e, IsSpace) == e
  {
    var p := PyTake(c, maxLength - 3);
    var e := p + "...";
    assert e[|e| - 1] == '.';
    if p != [] {
      assert e[0] == c[0];
    } else {
      assert e[0] == '.';
    }
    TrimUnchanged(e, IsSpace);
  }

  /** When not even the first sentence fits, the summary is the text cut
      to leave room for an ellipsis, then the ellipsis: the final strip
      changes nothing. */
  lemma SummaryTruncated(c: String, maxLength: int)
    requires c == [] || !IsSpace(c[0])
    requires |c| > maxLength && FitCount(Split(c, '.'), 0, maxLength) == 0
    ensures SummaryOf(c, maxLength) == PyTake(c, maxLength - 3) + "..."
  {
    UnstrippedCut(c, maxLength);
    EllipsisCut(c, maxLength);
  }

  lemma UnstrippedCut(c: String, maxLength: int)
    requires FitCount(Split(c, '.'), 0, maxLength) == 0
    ensures Unstripped(c, maxLength) == PyTake(c, maxLength - 3) + "..."
  {
    var ss := Split(c, '.');
    assert ss[..0] == [];
  }
}
