/**
 * String operations of JavaScript that the editor and the generation route
 * rely on, written out over Dafny strings (sequences of characters).
 * Positions are character indices.
 */
module Text {

  datatype Option<T> = None | Some(value: T)

  /** ASCII lower-casing. For the letters of the patterns used here ("body",
      "image", "src") this is exactly the folding of a case-insensitive,
      non-unicode JavaScript regular expression. */
  function Lower(c: char): char
  {
    if 'A' <= c <= 'Z' then (c as int + 32) as char else c
  }

  /** `\s` of a JavaScript regular expression, and the characters that
      String.prototype.trim removes: WhiteSpace and LineTerminator (tab to
      carriage return being \t \n \v \f \r). */
  predicate IsJsSpace(c: char)
  {
    if c < '\U{00A0}' then c == ' ' || ('\t' <= c <= '\r')
    else (c == '\U{00A0}' || c == '\U{1680}' || ('\U{2000}' <= c <= '\U{200A}')
      || c == '\U{2028}' || c == '\U{2029}' || c == '\U{202F}' || c == '\U{205F}'
      || c == '\U{3000}' || c == '\U{FEFF}')
  }

  /** `\w` of a non-unicode JavaScript regular expression. */
  predicate IsWordChar(c: char)
  {
    ('a' <= c <= 'z') || ('A' <= c <= 'Z') || ('0' <= c <= '9') || c == '_'
  }

  /** The character classes the regular expressions here repeat with `*`
      or `+`: `\s`, a backtick, `\w`, `[^"'}]` and `[^\s}]`. */
  datatype CharClass = Space | Backtick | Word | NotQuoteOrBrace | NotSpaceOrBrace

  predicate InClass(c: char, k: CharClass)
  {
    match k
    case Space => IsJsSpace(c)
    case Backtick => c == '`'
    case Word => IsWordChar(c)
    case NotQuoteOrBrace => c != '"' && c != '\'' && c != '}'
    case NotSpaceOrBrace => !IsJsSpace(c) && c != '}'
  }

  /** `pat` occurs in `s` starting at index `i`. */
  predicate At(s: string, i: nat, pat: string)
  {
    i + |pat| <= |s| && forall k :: 0 <= k < |pat| ==> s[i + k] == pat[k]
  }

  /** `pat` (written in lower case) occurs at `i`, ignoring ASCII case. */
  predicate AtCI(s: string, i: nat, pat: string)
  {
    i + |pat| <= |s| && forall k :: 0 <= k < |pat| ==> Lower(s[i + k]) == pat[k]
  }

  predicate StartsWith(s: string, prefix: string)
  {
    At(s, 0, prefix)
  }

  /** The first index at or after `from` where `pat` occurs (indexOf). */
  function Find(s: string, pat: string, from: nat): (r: Option<nat>)
    decreases |s| - from
    ensures r.Some? ==> from <= r.value && At(s, r.value, pat)
    ensures r.Some? ==> forall j: nat :: from <= j < r.value ==> !At(s, j, pat)
    ensures r.None? ==> forall j: nat :: from <= j ==> !At(s, j, pat)
  {
    if from + |pat| > |s| then None
    else if At(s, from, pat) then Some(from)
    else Find(s, pat, from + 1)
  }

  /** Case-insensitive search for a lower-case pattern. */
  function FindCI(s: string, pat: string, from: nat): (r: Option<nat>)
    decreases |s| - from
    ensures r.Some? ==> from <= r.value && AtCI(s, r.value, pat)
    ensures r.Some? ==> forall j: nat :: from <= j < r.value ==> !AtCI(s, j, pat)
    ensures r.None? ==> forall j: nat :: from <= j ==> !AtCI(s, j, pat)
  {
    if from + |pat| > |s| then None
    else if AtCI(s, from, pat) then Some(from)
    else FindCI(s, pat, from + 1)
  }

  /** The end of the longest run of characters of class `k` that starts at
      `from`: the place where a greedy `[...]*` stops. */
  function RunEnd(s: string, from: nat, k: CharClass): (r: nat)
    requires from <= |s|
    decreases |s| - from
    ensures from <= r <= |s|
    ensures forall j :: from <= j < r ==> InClass(s[j], k)
    ensures r < |s| ==> !InClass(s[r], k)
  {
    if from == |s| || !InClass(s[from], k) then from else RunEnd(s, from + 1, k)
  }

  /** Any run of class `k` starting at `from` ends at or before RunEnd. */
  lemma RunEndMaximal(s: string, from: nat, k: CharClass, e: nat)
    requires from <= e <= |s|
    requires forall j :: from <= j < e ==> InClass(s[j], k)
    ensures e <= RunEnd(s, from, k)
  {
  }

  /** A run that stops at a character outside `inRun` is the maximal run. */
  lemma RunEndUnique(s: string, from: nat, k: CharClass, e: nat)
    requires from <= e <= |s|
    requires forall j :: from <= j < e ==> InClass(s[j], k)
    requires e < |s| ==> !InClass(s[e], k)
    ensures RunEnd(s, from, k) == e
  {
  }

  /** String.prototype.replaceAll(pat, "") for a non-empty string pattern:
      occurrences are found left to right and never overlap. */
  function RemoveAll(s: string, pat: string): string
    requires |pat| > 0
    decreases |s|
  {
    if |s| < |pat| then s
    else if At(s, 0, pat) then RemoveAll(s[|pat|..], pat)
    else [s[0]] + RemoveAll(s[1..], pat)
  }

  /** replaceAll never lengthens the text, and text without the pattern is
      returned unchanged. */
  lemma {:induction false} RemoveAllSpec(s: string, pat: string)
    requires |pat| > 0
    ensures |RemoveAll(s, pat)| <= |s|
    ensures (forall j: nat :: !At(s, j, pat)) ==> RemoveAll(s, pat) == s
    decreases |s|
  {
    if |s| < |pat| {
    } else if At(s, 0, pat) {
      RemoveAllSpec(s[|pat|..], pat);
    } else {
      RemoveAllSpec(s[1..], pat);
      forall j: nat | At(s[1..], j, pat) ensures At(s, j + 1, pat) {
        AtTail(s, j, pat);
      }
    }
  }

  /** replaceAll works left to right: the text before the first occurrence
      is kept, the occurrence goes, and the search resumes after it. */
  lemma {:induction false} RemoveAllAt(s: string, pat: string, p: nat)
    requires |pat| > 0
    requires At(s, p, pat) && forall j: nat :: j < p ==> !At(s, j, pat)
    ensures RemoveAll(s, pat) == s[..p] + RemoveAll(s[p + |pat|..], pat)
    decreases p
  {
    if p == 0 {
      RemoveAllFront(s, pat);
    } else {
      assert !At(s, 0, pat);
      FirstInTail(s, pat, p);
      RemoveAllAt(s[1..], pat, p - 1);
      RemoveAllStep(s, pat, p);
    }
  }

  /** One step of RemoveAllAt: the kept first character goes in front of
      what the tail gives. */
  lemma RemoveAllStep(s: string, pat: string, p: nat)
    requires |pat| > 0 && 0 < p && p + |pat| <= |s| && !At(s, 0, pat)
    requires RemoveAll(s[1..], pat) == s[1..][..p - 1] + RemoveAll(s[1..][p - 1 + |pat|..], pat)
    ensures RemoveAll(s, pat) == s[..p] + RemoveAll(s[p + |pat|..], pat)
  {
    var t := s[1..];
    var rest := RemoveAll(s[p + |pat|..], pat);
    RemoveAllKeep(s, pat);
    TailSlices(s, p, p + |pat|);
    assert RemoveAll(t, pat) == t[..p - 1] + rest;
    ConcatAssoc([s[0]], t[..p - 1], rest);
  }

  /** The first occurrence, one place earlier in the tail. */
  lemma FirstInTail(s: string, pat: string, p: nat)
    requires p > 0 && At(s, p, pat) && forall j: nat :: j < p ==> !At(s, j, pat)
    ensures At(s[1..], p - 1, pat) && forall j: nat :: j < p - 1 ==> !At(s[1..], j, pat)
  {
    forall j: nat | j < p - 1 ensures !At(s[1..], j, pat) {
      AtTail(s, j, pat);
    }
    AtTail(s, p - 1, pat);
  }

  /** Slices of the tail are slices of the text one place later. */
  lemma TailSlices(s: string, p: nat, q: nat)
    requires 1 <= p <= q <= |s|
    ensures s[1..][q - 1..] == s[q..]
    ensures s[..p] == [s[0]] + s[1..][..p - 1]
  {
  }

  lemma ConcatAssoc(a: string, b: string, c: string)
    ensures a + (b + c) == (a + b) + c
  {
  }

  /** An occurrence at the front is removed. */
  lemma RemoveAllFront(s: string, pat: string)
    requires |pat| > 0 && At(s, 0, pat)
    ensures RemoveAll(s, pat) == RemoveAll(s[|pat|..], pat)
  {
  }

  /** A first character that starts no occurrence is kept. */
  lemma RemoveAllKeep(s: string, pat: string)
    requires |pat| > 0 && |s| >= |pat| && !At(s, 0, pat)
    ensures RemoveAll(s, pat) == [s[0]] + RemoveAll(s[1..], pat)
  {
  }

  /** Occurrences in the tail are occurrences one place later. */
  lemma AtTail(s: string, j: nat, pat: string)
    requires |s| > 0
    ensures At(s[1..], j, pat) == At(s, j + 1, pat)
  {
    if At(s, j + 1, pat) {
      forall k | 0 <= k < |pat| ensures s[1..][j + k] == pat[k] {
        assert s[j + 1 + k] == pat[k];
      }
    }
  }

  /** GetSubstitution for a string pattern, which has no capture groups:
      `$$`, `$&`, `` $` `` and `$'` are expanded, every other `$` is literal. */
  function Substitute(rep: string, matched: string, before: string, after: string): (r: string)
    decreases |rep|
    ensures (forall i :: 0 <= i < |rep| ==> rep[i] != '$') ==> r == rep
  {
    if rep == [] then []
    else if rep[0] == '$' && |rep| >= 2 && rep[1] == '$' then "$" + Substitute(rep[2..], matched, before, after)
    else if rep[0] == '$' && |rep| >= 2 && rep[1] == '&' then matched + Substitute(rep[2..], matched, before, after)
    else if rep[0] == '$' && |rep| >= 2 && rep[1] == '`' then before + Substitute(rep[2..], matched, before, after)
    else if rep[0] == '$' && |rep| >= 2 && rep[1] == '\'' then after + Substitute(rep[2..], matched, before, after)
    else [rep[0]] + Substitute(rep[1..], matched, before, after)
  }

  /** String.prototype.replace(pat, rep) for a string pattern: only the first
      occurrence is replaced. */
  function ReplaceFirst(s: string, pat: string, rep: string): string
  {
    match Find(s, pat, 0)
    case None => s
    case Some(p) => s[..p] + Substitute(rep, pat, s[..p], s[p + |pat|..]) + s[p + |pat|..]
  }

  /** Without an occurrence nothing changes. */
  lemma ReplaceFirstMissing(s: string, pat: string, rep: string)
    requires forall j: nat :: !At(s, j, pat)
    ensures ReplaceFirst(s, pat, rep) == s
  {
  }

  /** The first occurrence, and only it, is replaced by the expanded
      replacement. */
  lemma ReplaceFirstAt(s: string, pat: string, rep: string, p: nat)
    requires At(s, p, pat) && forall j: nat :: j < p ==> !At(s, j, pat)
    ensures ReplaceFirst(s, pat, rep) == s[..p] + Substitute(rep, pat, s[..p], s[p + |pat|..]) + s[p + |pat|..]
  {
    FindFirst(s, pat, 0, p);
  }

  /** Find from `from` reports the first occurrence at or after `from`. */
  lemma FindFirst(s: string, pat: string, from: nat, p: nat)
    requires from <= p && At(s, p, pat) && forall j: nat :: from <= j < p ==> !At(s, j, pat)
    ensures Find(s, pat, from) == Some(p)
  {
    var r := Find(s, pat, from);
    assert r.Some?;
  }

  /** String.prototype.trim. */
  function Trim(s: string): string
  {
    var i := RunEnd(s, 0, Space);
    var j := TrimmedEnd(s, i);
    s[i..j]
  }

  /** Trim removes spaces from both ends and nothing else. */
  lemma TrimSpec(s: string)
    ensures exists i, j :: (0 <= i <= j <= |s| && Trim(s) == s[i..j]
      && (forall k :: 0 <= k < i ==> IsJsSpace(s[k]))
      && (forall k :: j <= k < |s| ==> IsJsSpace(s[k])))
    ensures Trim(s) != [] ==> !IsJsSpace(Trim(s)[0]) && !IsJsSpace(Trim(s)[|Trim(s)| - 1])
  {
    var i := RunEnd(s, 0, Space);
    var j := TrimmedEnd(s, i);
    assert Trim(s) == s[i..j];
  }

  /** The end of `s` once trailing spaces after `lo` are dropped. */
  function TrimmedEnd(s: string, lo: nat): (j: nat)
    requires lo <= |s|
    decreases |s|
    ensures lo <= j <= |s|
    ensures forall k :: j <= k < |s| ==> IsJsSpace(s[k])
    ensures j > lo ==> !IsJsSpace(s[j - 1])
  {
    if |s| == lo || !IsJsSpace(s[|s| - 1]) then |s| else TrimmedEnd(s[..|s| - 1], lo)
  }

  /** String.prototype.split with a one-character separator. */
  function Split(s: string, sep: char): seq<string>
    decreases |s|
  {
    match Find(s, [sep], 0)
    case None => [s]
    case Some(p) => [s[..p]] + Split(s[p + 1..], sep)
  }

  /** There is at least one piece, and no piece holds the separator. */
  lemma {:induction false} SplitPieces(s: string, sep: char)
    ensures |Split(s, sep)| >= 1
    ensures forall i, k :: 0 <= i < |Split(s, sep)| && 0 <= k < |Split(s, sep)[i]| ==> Split(s, sep)[i][k] != sep
    decreases |s|
  {
    match Find(s, [sep], 0)
    case None =>
      forall k | 0 <= k < |s| ensures s[k] != sep { assert !At(s, k, [sep]); }
    case Some(p) =>
      forall k | 0 <= k < p ensures s[k] != sep { assert !At(s, k, [sep]); }
      SplitPieces(s[p + 1..], sep);
      var r := Split(s, sep);
      forall i, k | 0 <= i < |r| && 0 <= k < |r[i]| ensures r[i][k] != sep {
        if i > 0 {
          assert r[i] == Split(s[p + 1..], sep)[i - 1];
        }
      }
  }

  /** A string without the separator is a single piece. */
  lemma SplitWithoutSep(s: string, sep: char)
    requires forall i :: 0 <= i < |s| ==> s[i] != sep
    ensures Split(s, sep) == [s]
  {
    forall j: nat | j < |s| ensures !At(s, j, [sep]) {
      assert s[j + 0] != [sep][0];
    }
  }

  function Join(parts: seq<string>, sep: char): string
    decreases |parts|
  {
    if |parts| <= 1 then (if parts == [] then [] else parts[0])
    else parts[0] + [sep] + Join(parts[1..], sep)
  }

  /** Splitting loses nothing: joining the pieces gives back the string. */
  lemma {:induction false} SplitJoin(s: string, sep: char)
    ensures Join(Split(s, sep), sep) == s
    decreases |s|
  {
    match Find(s, [sep], 0)
    case None =>
    case Some(p) =>
      SplitJoin(s[p + 1..], sep);
      SplitPieces(s[p + 1..], sep);
      assert s[p + 0] == [sep][0];
      assert s == s[..p] + [sep] + s[p + 1..];
  }
}
