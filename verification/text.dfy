/** Character classes and the small string normalisers (strip, regex
    substitution, split) that the utilities are built from. */
module Text {

  type String = seq<char>

  /** Python's `str.isspace()`, which is also what `\s` of `re` and
      `str.split()` / `str.strip()` treat as whitespace. The list is finite. */
  predicate IsSpace(c: char) {
    || c == ' '
    || '\t' <= c <= '\r'
    || '\U{1C}' <= c <= '\U{1F}'
    || c == '\U{85}' || c == '\U{A0}' || c == '\U{1680}'
    || '\U{2000}' <= c <= '\U{200A}'
    || c == '\U{2028}' || c == '\U{2029}' || c == '\U{202F}'
    || c == '\U{205F}' || c == '\U{3000}'
  }

  predicate IsDigit(c: char) {
    '0' <= c <= '9'
  }

  predicate IsAsciiLetter(c: char) {
    'a' <= c <= 'z' || 'A' <= c <= 'Z'
  }

  predicate IsAscii(c: char) {
    c as int < 128
  }

  /** The `\w` class, restricted to ASCII: letters, digits and underscore. */
  predicate IsWordChar(c: char) {
    IsAsciiLetter(c) || IsDigit(c) || c == '_'
  }

  predicate IsHyphen(c: char) {
    c == '-'
  }

  /** The class `[-\s]`. */
  predicate IsHyphenOrSpace(c: char) {
    c == '-' || IsSpace(c)
  }

  /** The class `[\w\s-]`: what survives `re.sub(r'[^\w\s-]', '', ...)`. */
  predicate IsSlugSource(c: char) {
    IsWordChar(c) || IsSpace(c) || c == '-'
  }

  /** `str.lower()` on one character, restricted to ASCII. */
  function LowerChar(c: char): char {
    if 'A' <= c <= 'Z' then (c as int + 32) as char else c
  }

  function Lower(s: String): String {
    seq(|s|, i requires 0 <= i < |s| => LowerChar(s[i]))
  }

  predicate AllChars(s: String, p: char -> bool) {
    forall i :: 0 <= i < |s| ==> p(s[i])
  }

  /** No two neighbouring characters both belong to `p`. */
  predicate NoAdjacent(s: String, p: char -> bool) {
    forall i :: 0 <= i < |s| - 1 ==> !(p(s[i]) && p(s[i + 1]))
  }

  /** Drops the leading characters that belong to `p` (`lstrip`). */
  function TrimStart(s: String, p: char -> bool): (r: String)
    ensures |r| <= |s| && r == s[|s| - |r|..]
    ensures r == [] || !p(r[0])
    ensures forall i :: 0 <= i < |s| - |r| ==> p(s[i])
  {
    if |s| > 0 && p(s[0]) then
      var r := TrimStart(s[1..], p);
      assert s[1..][|s| - 1 - |r|..] == s[|s| - |r|..];
      r
    else s
  }

  /** Drops the trailing characters that belong to `p` (`rstrip`). */
  function TrimEnd(s: String, p: char -> bool): (r: String)
    ensures |r| <= |s| && r == s[..|r|]
    ensures r == [] || !p(r[|r| - 1])
    ensures forall i :: |r| <= i < |s| ==> p(s[i])
  {
    if |s| > 0 && p(s[|s| - 1]) then TrimEnd(s[..|s| - 1], p) else s
  }

  /** `strip`: the infix of `s` left after removing `p`-characters at both ends. */
  function Trim(s: String, p: char -> bool): (r: String)
    ensures var a := |s| - |TrimStart(s, p)|; a + |r| <= |s| && r == s[a..a + |r|]
    ensures r == [] || (!p(r[0]) && !p(r[|r| - 1]))
    ensures r == [] <==> AllChars(s, p)
  {
    var u := TrimStart(s, p);
    var r := TrimEnd(u, p);
    assert r == u[..|r|];
    assert u == s[|s| - |u|..];
    r
  }

  /** Stripping a string that has nothing to strip changes nothing. */
  lemma TrimUnchanged(s: String, p: char -> bool)
    requires s == [] || (!p(s[0]) && !p(s[|s| - 1]))
    ensures Trim(s, p) == s
  {
    assert TrimStart(s, p) == s;
  }

  /** A property of every character of `s` still holds once `s` is stripped. */
  lemma TrimPreservesChars(s: String, p: char -> bool, q: char -> bool)
    requires AllChars(s, q)
    ensures AllChars(Trim(s, p), q)
  {
    var r := Trim(s, p);
    var a := |s| - |TrimStart(s, p)|;
    forall i | 0 <= i < |r|
      ensures q(r[i])
    {
      assert r[i] == s[a + i];
    }
  }

  /** So does a property of every pair of neighbours. */
  lemma TrimPreservesNoAdjacent(s: String, p: char -> bool, q: char -> bool)
    requires NoAdjacent(s, q)
    ensures NoAdjacent(Trim(s, p), q)
  {
    var r := Trim(s, p);
    var a := |s| - |TrimStart(s, p)|;
    forall i | 0 <= i < |r| - 1
      ensures !(q(r[i]) && q(r[i + 1]))
    {
      assert r[i] == s[a + i] && r[i + 1] == s[a + i + 1];
    }
  }

  lemma NoAdjacentWeaken(s: String, p: char -> bool, q: char -> bool)
    requires NoAdjacent(s, p)
    requires forall c :: q(c) ==> p(c)
    ensures NoAdjacent(s, q)
  {
  }

  /** `re.sub('[^...]', '', s)`: keeps exactly the characters in `p`, in order. */
  function Keep(s: String, p: char -> bool): (r: String)
    ensures |r| <= |s|
    ensures forall c :: c in r <==> c in s && p(c)
    ensures AllChars(s, p) ==> r == s
  {
    if s == [] then [] else (if p(s[0]) then [s[0]] else []) + Keep(s[1..], p)
  }

  lemma TrimStartSingle(s: String, p: char -> bool)
    requires |s| > 0 && p(s[0])
    ensures (|s| == 1 || !p(s[1])) ==> TrimStart(s, p) == s[1..]
  {
    if |s| > 1 && !p(s[1]) {
      assert TrimStart(s[1..], p) == s[1..];
    }
  }

  /** `re.sub('[...]+', rep, s)`: every maximal run of `p`-characters becomes
      the single character `rep`. */
  function Collapse(s: String, p: char -> bool, rep: char): (r: String)
    requires p(rep)
    ensures |r| <= |s|
    ensures r == [] <==> s == []
    ensures r != [] ==> (p(r[0]) <==> p(s[0]))
    ensures forall i :: 0 <= i < |r| ==> if p(r[i]) then r[i] == rep else r[i] in s
    ensures NoAdjacent(r, p)
    decreases |s|
  {
    if s == [] then []
    else if p(s[0]) then [rep] + Collapse(TrimStart(s, p), p, rep)
    else [s[0]] + Collapse(s[1..], p, rep)
  }

  lemma KeepPreserves(s: String, p: char -> bool, q: char -> bool)
    requires AllChars(s, q)
    ensures AllChars(Keep(s, p), q) && AllChars(Keep(s, p), p)
  {
    var r := Keep(s, p);
    forall i | 0 <= i < |r|
      ensures q(r[i]) && p(r[i])
    {
      assert r[i] in r;
    }
  }

  lemma KeepChars(s: String, p: char -> bool)
    ensures AllChars(Keep(s, p), p)
  {
    var r := Keep(s, p);
    forall i | 0 <= i < |r|
      ensures p(r[i])
    {
      assert r[i] in r;
    }
  }

  /** A prefix keeps the character properties of the whole. */
  lemma PrefixPreserves(s: String, n: nat, p: char -> bool, q: char -> bool)
    requires n <= |s| && AllChars(s, q) && NoAdjacent(s, p)
    ensures AllChars(s[..n], q) && NoAdjacent(s[..n], p)
  {
  }

  /** After collapsing, a character outside `p` still has every property
      the characters of `s` had. */
  lemma CollapseChars(s: String, p: char -> bool, rep: char, q: char -> bool)
    requires p(rep) && AllChars(s, q)
    ensures forall i :: 0 <= i < |Collapse(s, p, rep)| && !p(Collapse(s, p, rep)[i]) ==> q(Collapse(s, p, rep)[i])
  {
  }

  /** Every `p`-character of `s` replaced by `rep`. */
  function ReplaceAll(s: String, p: char -> bool, rep: char): (r: String)
    ensures |r| == |s|
    ensures forall i :: 0 <= i < |s| ==> r[i] == if p(s[i]) then rep else s[i]
  {
    if s == [] then [] else [if p(s[0]) then rep else s[0]] + ReplaceAll(s[1..], p, rep)
  }

  /** When no two `p`-characters are neighbours, collapsing just replaces
      each of them by `rep`. */
  lemma {:induction false} CollapseSeparated(s: String, p: char -> bool, rep: char)
    requires p(rep) && NoAdjacent(s, p)
    ensures Collapse(s, p, rep) == ReplaceAll(s, p, rep)
    decreases |s|
  {
    if s != [] {
      assert NoAdjacent(s[1..], p);
      CollapseSeparated(s[1..], p, rep);
      if p(s[0]) {
        TrimStartSingle(s, p);
        assert Collapse(s, p, rep) == [rep] + Collapse(s[1..], p, rep);
      } else {
        assert Collapse(s, p, rep) == [s[0]] + Collapse(s[1..], p, rep);
      }
    }
  }

  /** Collapsing a string whose runs are already single `rep` characters
      changes nothing. */
  lemma CollapseUnchanged(s: String, p: char -> bool, rep: char)
    requires p(rep) && NoAdjacent(s, p)
    requires forall i :: 0 <= i < |s| && p(s[i]) ==> s[i] == rep
    ensures Collapse(s, p, rep) == s
  {
    CollapseSeparated(s, p, rep);
  }

  /** Collapsing keeps the class of the last character too. */
  lemma {:induction false} CollapseLast(s: String, p: char -> bool, rep: char)
    requires p(rep) && s != []
    ensures var r := Collapse(s, p, rep); p(r[|r| - 1]) <==> p(s[|s| - 1])
    decreases |s|
  {
    if p(s[0]) {
      var t := TrimStart(s, p);
      if t != [] {
        CollapseLast(t, p, rep);
        assert t[|t| - 1] == s[|s| - 1];
      }
    } else if |s| > 1 {
      CollapseLast(s[1..], p, rep);
    }
  }

  /** The pieces of `s` between separators; never empty (`str.split(sep)`). */
  function Join(pieces: seq<String>, sep: char): String
    requires |pieces| >= 1
  {
    if |pieces| == 1 then pieces[0] else pieces[0] + [sep] + Join(pieces[1..], sep)
  }

  /** Python's `str.split(sep)` with an explicit one-character separator. */
  function Split(s: String, sep: char): (r: seq<String>)
    ensures |r| >= 1
    ensures forall i :: 0 <= i < |r| ==> sep !in r[i]
    ensures Join(r, sep) == s
  {
    if s == [] then [[]]
    else
      var rest := Split(s[1..], sep);
      if s[0] == sep then [[]] + rest
      else [[s[0]] + rest[0]] + rest[1..]
  }
}
