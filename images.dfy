/**
 * The rewrite of JSX image components into plain image tags (lines 202-203):
 *
 *   Quoted:  /<Image[^>]*src=\{?\s*["']([^"'}]+)["']\s*\}?[^>]*\/>/gi
 *   Bare:    /<Image[^>]*src=\{?\s*([^\s}]+)\s*\}?[^>]*\/>/gi
 *
 * each replaced by '<img src="$1" />', the Quoted pattern over the whole text
 * first and then the Bare one. The patterns are matched by hand here, in the
 * order a backtracking engine tries the alternatives; the lemmas relate that
 * matcher to a declarative description of what each pattern accepts.
 */
module Images {
  import opened Text

  /** A match at some start p: "src=" at attr, the captured source
      s[srcStart..srcEnd], and the match ending just after "/>" at end. */
  datatype ImageMatch = ImageMatch(attr: nat, srcStart: nat, srcEnd: nat, end: nat)

  datatype ImagePattern = Quoted | Bare

  predicate IsQuote(c: char) { c == '"' || c == '\'' }

  /** `\{?\s*` accepts s[x..y]. */
  ghost predicate BraceSpaces(s: string, x: nat, y: nat)
  {
    x <= y <= |s| && forall j :: x <= j < y ==> IsJsSpace(s[j]) || (j == x && s[j] == '{')
  }

  /** `\s*\}?[^>]*\/>` accepts s[x..end]: no '>' before the closing "/>". */
  ghost predicate CloseAt(s: string, x: nat, end: nat)
  {
    x + 2 <= end <= |s| && s[end - 2] == '/' && s[end - 1] == '>'
    && forall j :: x <= j < end - 1 ==> s[j] != '>'
  }

  /** The part of the Quoted pattern from "src=" on. */
  ghost predicate QuotedShape(s: string, m: ImageMatch)
  {
    m.attr + 4 < m.srcStart < m.srcEnd < |s|
    && AtCI(s, m.attr, "src=")
    && BraceSpaces(s, m.attr + 4, m.srcStart - 1) && IsQuote(s[m.srcStart - 1])
    && (forall j :: m.srcStart <= j < m.srcEnd ==> InClass(s[j], NotQuoteOrBrace))
    && IsQuote(s[m.srcEnd])
    && CloseAt(s, m.srcEnd + 1, m.end)
  }

  /** The part of the Bare pattern from "src=" on. */
  ghost predicate BareShape(s: string, m: ImageMatch)
  {
    m.attr + 4 <= m.srcStart < m.srcEnd <= |s|
    && AtCI(s, m.attr, "src=")
    && BraceSpaces(s, m.attr + 4, m.srcStart)
    && (forall j :: m.srcStart <= j < m.srcEnd ==> InClass(s[j], NotSpaceOrBrace))
    && CloseAt(s, m.srcEnd, m.end)
  }

  ghost predicate ValueShape(s: string, m: ImageMatch, pat: ImagePattern)
  {
    match pat
    case Quoted => QuotedShape(s, m)
    case Bare => BareShape(s, m)
  }

  /** Everything the pattern `pat` accepts when started at p. */
  ghost predicate Shape(s: string, p: nat, m: ImageMatch, pat: ImagePattern)
  {
    AtCI(s, p, "<image") && p + 6 <= m.attr && m.attr <= |s|
    && (forall j :: p + 6 <= j < m.attr ==> s[j] != '>')
    && ValueShape(s, m, pat)
  }

  /** m2 comes before m1 in the engine's order of trial: the greedy
      `[^>]*` tries the last "src=" first, then a longer `\{?\s*` (which only
      matters for Bare, where a `{` may also start the source), then the
      longest source. */
  ghost predicate Below(m1: ImageMatch, m2: ImageMatch)
  {
    m1.attr < m2.attr
    || (m1.attr == m2.attr && m1.srcStart < m2.srcStart)
    || (m1.attr == m2.attr && m1.srcStart == m2.srcStart && m1.srcEnd < m2.srcEnd)
  }

  // ---------------------------------------------------------------------
  // Pieces of the matcher
  // ---------------------------------------------------------------------

  function FindChar(s: string, c: char, from: nat): (r: Option<nat>)
    decreases |s| - from
    ensures r.Some? ==> from <= r.value < |s| && s[r.value] == c
    ensures r.Some? ==> forall j :: from <= j < r.value ==> s[j] != c
    ensures r.None? ==> forall j :: from <= j < |s| ==> s[j] != c
  {
    if from >= |s| then None
    else if s[from] == c then Some(from)
    else FindChar(s, c, from + 1)
  }

  /** The end of `\s*\}?[^>]*\/>` started at x, if it matches. */
  function TagClose(s: string, x: nat): (r: Option<nat>)
    ensures r.Some? ==> CloseAt(s, x, r.value)
    ensures r.None? ==> forall e: nat :: !CloseAt(s, x, e)
    ensures forall e: nat :: CloseAt(s, x, e) ==> r == Some(e)
  {
    match FindChar(s, '>', x)
    case None => None
    case Some(t) => if t >= x + 1 && s[t - 1] == '/' then Some(t + 1) else None
  }

  /** The optional `{` of `\{?`, taken when it is there. */
  function AfterBrace(s: string, b: nat): (r: nat)
    requires b <= |s|
    ensures r == b || (b < |s| && s[b] == '{' && r == b + 1)
    ensures r <= |s|
  {
    if b < |s| && s[b] == '{' then b + 1 else b
  }

  /** Quoted from "src=" at a on: every step but the choice of a is forced. */
  function QuotedAt(s: string, a: nat): (r: Option<ImageMatch>)
    requires AtCI(s, a, "src=")
  {
    var q := RunEnd(s, AfterBrace(s, a + 4), Space);
    if q < |s| && IsQuote(s[q]) then
      var c := RunEnd(s, q + 1, NotQuoteOrBrace);
      if q + 1 < c && c < |s| && IsQuote(s[c]) then
        match TagClose(s, c + 1)
        case Some(e) => Some(ImageMatch(a, q + 1, c, e))
        case None => None
      else None
    else None
  }

  /** Whatever QuotedAt finds is a match of the Quoted pattern. */
  lemma QuotedAtSound(s: string, a: nat)
    requires AtCI(s, a, "src=")
    ensures QuotedAt(s, a).Some? ==> QuotedAt(s, a).value.attr == a && QuotedShape(s, QuotedAt(s, a).value)
  {
  }

  /** The Bare source is tried longest first, down to one character. */
  function LongestBare(s: string, a: nat, q: nat, c: nat): (r: Option<ImageMatch>)
    requires q < c <= |s|
    decreases c
    ensures r.Some? ==> r.value.attr == a && r.value.srcStart == q && q < r.value.srcEnd <= c
    ensures r.Some? ==> CloseAt(s, r.value.srcEnd, r.value.end)
  {
    match TagClose(s, c)
    case Some(e) => Some(ImageMatch(a, q, c, e))
    case None => if c == q + 1 then None else LongestBare(s, a, q, c - 1)
  }

  /** `\s*([^\s}]+)` from b1 on, then the rest of the tag. */
  function BareFrom(s: string, a: nat, b1: nat): (r: Option<ImageMatch>)
    requires b1 <= |s|
  {
    var q := RunEnd(s, b1, Space);
    var m := RunEnd(s, q, NotSpaceOrBrace);
    if m == q then None else LongestBare(s, a, q, m)
  }

  lemma BareFromSound(s: string, a: nat, b1: nat)
    requires b1 <= |s|
    ensures BareFrom(s, a, b1).Some? ==> var m := BareFrom(s, a, b1).value;
      m.attr == a && b1 <= m.srcStart < m.srcEnd <= |s|
      && (forall j :: b1 <= j < m.srcStart ==> IsJsSpace(s[j]))
      && (forall j :: m.srcStart <= j < m.srcEnd ==> InClass(s[j], NotSpaceOrBrace))
      && CloseAt(s, m.srcEnd, m.end)
  {
  }

  /** Bare from "src=" at a on: with a `{` there, taking it is tried first. */
  function BareAt(s: string, a: nat): (r: Option<ImageMatch>)
    requires AtCI(s, a, "src=")
  {
    var b := a + 4;
    var braced := if b < |s| && s[b] == '{' then BareFrom(s, a, b + 1) else None;
    if braced.Some? then braced else BareFrom(s, a, b)
  }

  /** Whatever BareAt finds is a match of the Bare pattern. */
  lemma BareAtSound(s: string, a: nat)
    requires AtCI(s, a, "src=")
    ensures BareAt(s, a).Some? ==> BareAt(s, a).value.attr == a && BareShape(s, BareAt(s, a).value)
  {
    BareFromSound(s, a, a + 4);
    if a + 4 < |s| && s[a + 4] == '{' {
      BareFromSound(s, a, a + 5);
    }
  }

  /** The value that follows a "src=" at a. */
  function ValueAt(s: string, a: nat, pat: ImagePattern): Option<ImageMatch>
    requires AtCI(s, a, "src=")
  {
    match pat
    case Quoted => QuotedAt(s, a)
    case Bare => BareAt(s, a)
  }

  lemma ValueAtSound(s: string, a: nat, pat: ImagePattern)
    requires AtCI(s, a, "src=")
    ensures ValueAt(s, a, pat).Some? ==> ValueAt(s, a, pat).value.attr == a && ValueShape(s, ValueAt(s, a, pat).value, pat)
  {
    match pat
    case Quoted => QuotedAtSound(s, a);
    case Bare => BareAtSound(s, a);
  }

  /** The greedy `[^>]*` before "src=": the candidates a, a-1, ..., lo. */
  function LastAttr(s: string, lo: nat, a: nat, pat: ImagePattern): Option<ImageMatch>
    requires lo <= a
    decreases a - lo
  {
    var here := if AtCI(s, a, "src=") then ValueAt(s, a, pat) else None;
    if here.Some? then here
    else if a == lo then None
    else LastAttr(s, lo, a - 1, pat)
  }

  lemma {:induction false} LastAttrSound(s: string, lo: nat, a: nat, pat: ImagePattern)
    requires lo <= a
    ensures LastAttr(s, lo, a, pat).Some? ==>
      lo <= LastAttr(s, lo, a, pat).value.attr <= a && ValueShape(s, LastAttr(s, lo, a, pat).value, pat)
    decreases a - lo
  {
    if AtCI(s, a, "src=") {
      ValueAtSound(s, a, pat);
    }
    if a > lo {
      LastAttrSound(s, lo, a - 1, pat);
    }
  }

  /** The match of `pat` starting exactly at p, if any. */
  function MatchImage(s: string, p: nat, pat: ImagePattern): Option<ImageMatch>
  {
    if AtCI(s, p, "<image") then
      var g := match FindChar(s, '>', p + 6) case Some(t) => t case None => |s|;
      LastAttr(s, p + 6, g, pat)
    else None
  }

  /** Whatever MatchImage finds is a match of the pattern. */
  lemma MatchImageSound(s: string, p: nat, pat: ImagePattern)
    ensures MatchImage(s, p, pat).Some? ==> Shape(s, p, MatchImage(s, p, pat).value, pat)
  {
    if AtCI(s, p, "<image") {
      var g := match FindChar(s, '>', p + 6) case Some(t) => t case None => |s|;
      LastAttrSound(s, p + 6, g, pat);
      var r := LastAttr(s, p + 6, g, pat);
      if r.Some? {
        assert forall j :: p + 6 <= j < r.value.attr ==> s[j] != '>';
      }
    }
  }

  // ---------------------------------------------------------------------
  // The global replace
  // ---------------------------------------------------------------------

  function ImgTag(src: string): string
  {
    "<img src=\"" + src + "\" />"
  }

  lemma ShapeEnd(s: string, p: nat, m: ImageMatch, pat: ImagePattern)
    requires Shape(s, p, m, pat)
    ensures p < m.srcStart <= m.srcEnd < m.end <= |s|
  {
  }

  /** A replace with a global regular expression: scanning from p, each
      match is replaced and the scan resumes after it; every other character
      is kept. */
  function RewriteFrom(s: string, p: nat, pat: ImagePattern): string
    decreases |s| - p
  {
    if p >= |s| then []
    else match MatchImage(s, p, pat)
      case Some(m) =>
        MatchImageSound(s, p, pat);
        ShapeEnd(s, p, m, pat);
        ImgTag(s[m.srcStart..m.srcEnd]) + RewriteFrom(s, m.end, pat)
      case None => [s[p]] + RewriteFrom(s, p + 1, pat)
  }

  /** Lines 202-203. */
  function RewriteImages(s: string): string
  {
    RewriteFrom(RewriteFrom(s, 0, Quoted), 0, Bare)
  }

  // ---------------------------------------------------------------------
  // What the matcher is
  // ---------------------------------------------------------------------

  /** Text without any `<image` (in any case) passes through untouched. */
  lemma {:induction false} RewriteFromUnchanged(s: string, p: nat, pat: ImagePattern)
    requires p <= |s|
    requires forall i: nat :: p <= i ==> !AtCI(s, i, "<image")
    ensures RewriteFrom(s, p, pat) == s[p..]
    decreases |s| - p
  {
    if p < |s| {
      RewriteFromUnchanged(s, p + 1, pat);
      assert s[p..] == [s[p]] + s[p + 1..];
    }
  }

  lemma RewriteImagesUnchanged(s: string)
    requires forall i: nat :: !AtCI(s, i, "<image")
    ensures RewriteImages(s) == s
  {
    RewriteFromUnchanged(s, 0, Quoted);
    RewriteFromUnchanged(s, 0, Bare);
  }

  /** `\{?\s*` before a character other than `{`: the spaces start after
      the `{` exactly when there is one. */
  lemma BraceSpacesStart(s: string, x: nat, y: nat)
    requires BraceSpaces(s, x, y) && y < |s| && s[y] != '{'
    ensures AfterBrace(s, x) <= y
    ensures forall j :: AfterBrace(s, x) <= j < y ==> IsJsSpace(s[j])
  {
  }

  /** Where the Quoted pattern's opening quote sits, once "src=" is fixed. */
  lemma QuoteOpens(s: string, m: ImageMatch)
    requires QuotedShape(s, m)
    ensures RunEnd(s, AfterBrace(s, m.attr + 4), Space) == m.srcStart - 1
  {
    BraceSpacesStart(s, m.attr + 4, m.srcStart - 1);
    RunEndUnique(s, AfterBrace(s, m.attr + 4), Space, m.srcStart - 1);
  }

  /** At a fixed "src=", the Quoted pattern has at most one way to match,
      and QuotedAt finds it. */
  lemma QuotedAtComplete(s: string, m: ImageMatch)
    requires QuotedShape(s, m)
    ensures QuotedAt(s, m.attr) == Some(m)
  {
    QuoteOpens(s, m);
    QuoteCloses(s, m);
    QuotedAtSteps(s, m.attr, m.srcStart - 1, m.srcEnd, m.end);
  }

  /** Where the Quoted pattern's closing quote and its "/>" sit. */
  lemma QuoteCloses(s: string, m: ImageMatch)
    requires QuotedShape(s, m)
    ensures RunEnd(s, m.srcStart, NotQuoteOrBrace) == m.srcEnd
    ensures TagClose(s, m.srcEnd + 1) == Some(m.end)
  {
    RunEndUnique(s, m.srcStart, NotQuoteOrBrace, m.srcEnd);
  }

  /** QuotedAt once each of its steps is known. */
  lemma QuotedAtSteps(s: string, a: nat, q: nat, c: nat, e: nat)
    requires AtCI(s, a, "src=")
    requires RunEnd(s, AfterBrace(s, a + 4), Space) == q && q < |s| && IsQuote(s[q])
    requires RunEnd(s, q + 1, NotQuoteOrBrace) == c && q + 1 < c < |s| && IsQuote(s[c])
    requires TagClose(s, c + 1) == Some(e)
    ensures QuotedAt(s, a) == Some(ImageMatch(a, q + 1, c, e))
  {
  }

  lemma {:induction false} LongestBareComplete(s: string, q: nat, c: nat, m: ImageMatch)
    requires q < c <= |s|
    requires m.srcStart == q && q < m.srcEnd <= c && CloseAt(s, m.srcEnd, m.end)
    ensures LongestBare(s, m.attr, q, c).Some?
    ensures LongestBare(s, m.attr, q, c) == Some(m) || Below(m, LongestBare(s, m.attr, q, c).value)
    decreases c
  {
    if TagClose(s, c).None? {
      assert m.srcEnd != c;
      LongestBareComplete(s, q, c - 1, m);
    }
  }

  lemma BareFromComplete(s: string, b1: nat, m: ImageMatch)
    requires b1 <= m.srcStart < m.srcEnd <= |s|
    requires forall j :: b1 <= j < m.srcStart ==> IsJsSpace(s[j])
    requires forall j :: m.srcStart <= j < m.srcEnd ==> InClass(s[j], NotSpaceOrBrace)
    requires CloseAt(s, m.srcEnd, m.end)
    ensures BareFrom(s, m.attr, b1).Some?
    ensures BareFrom(s, m.attr, b1) == Some(m) || Below(m, BareFrom(s, m.attr, b1).value)
  {
    RunEndUnique(s, b1, Space, m.srcStart);
    var q := m.srcStart;
    RunEndMaximal(s, q, NotSpaceOrBrace, m.srcEnd);
    LongestBareComplete(s, q, RunEnd(s, q, NotSpaceOrBrace), m);
  }

  /** At a fixed "src=", BareAt finds the Bare match tried first: the one
      that takes a `{` if there is one, then the longest source. */
  lemma BareAtComplete(s: string, m: ImageMatch)
    requires BareShape(s, m)
    ensures BareAt(s, m.attr).Some?
    ensures BareAt(s, m.attr) == Some(m) || Below(m, BareAt(s, m.attr).value)
  {
    var b := m.attr + 4;
    if s[b] != '{' {
      BareUnbraced(s, m);
    } else if m.srcStart == b {
      BareFromComplete(s, b, m);
      BracedFirst(s, m);
    } else {
      forall j | m.attr + 5 <= j < m.srcStart
        ensures IsJsSpace(s[j])
      {
        assert j != m.attr + 4;
      }
      BareBraced(s, m);
    }
  }

  lemma BareUnbraced(s: string, m: ImageMatch)
    requires BareShape(s, m) && s[m.attr + 4] != '{'
    ensures BareAt(s, m.attr).Some?
    ensures BareAt(s, m.attr) == Some(m) || Below(m, BareAt(s, m.attr).value)
  {
    BareAtFrom(s, m.attr);
    UnbracedSpaces(s, m.attr + 4, m.srcStart);
    BareFromComplete(s, m.attr + 4, m);
  }

  /** Without a `{` in front, the optional brace and spaces are spaces. */
  lemma UnbracedSpaces(s: string, x: nat, y: nat)
    requires BraceSpaces(s, x, y) && (x < |s| ==> s[x] != '{')
    ensures forall j :: x <= j < y ==> IsJsSpace(s[j])
  {
  }

  lemma BareBraced(s: string, m: ImageMatch)
    requires AtCI(s, m.attr, "src=") && m.attr + 5 <= m.srcStart < m.srcEnd <= |s| && s[m.attr + 4] == '{'
    requires forall j :: m.attr + 5 <= j < m.srcStart ==> IsJsSpace(s[j])
    requires forall j :: m.srcStart <= j < m.srcEnd ==> InClass(s[j], NotSpaceOrBrace)
    requires CloseAt(s, m.srcEnd, m.end)
    ensures BareAt(s, m.attr).Some?
    ensures BareAt(s, m.attr) == Some(m) || Below(m, BareAt(s, m.attr).value)
  {
    BareFromComplete(s, m.attr + 5, m);
    BracedWins(s, m);
  }

  /** With a `{` after "src=", a match that takes it is the one reported. */
  lemma BracedWins(s: string, m: ImageMatch)
    requires AtCI(s, m.attr, "src=") && m.attr + 4 < |s| && s[m.attr + 4] == '{'
    requires BareFrom(s, m.attr, m.attr + 5).Some?
    requires BareFrom(s, m.attr, m.attr + 5) == Some(m) || Below(m, BareFrom(s, m.attr, m.attr + 5).value)
    ensures BareAt(s, m.attr).Some?
    ensures BareAt(s, m.attr) == Some(m) || Below(m, BareAt(s, m.attr).value)
  {
    BareAtFrom(s, m.attr);
  }

  /** Which start BareAt settles on once the matches past a `{` are known. */
  lemma BareAtFrom(s: string, a: nat)
    requires AtCI(s, a, "src=")
    ensures !(a + 4 < |s| && s[a + 4] == '{') ==> BareAt(s, a) == BareFrom(s, a, a + 4)
    ensures a + 4 < |s| && s[a + 4] == '{' && BareFrom(s, a, a + 5).Some? ==> BareAt(s, a) == BareFrom(s, a, a + 5)
  {
  }

  /** A source that itself starts with the `{` loses to a match that takes
      the `{` as the optional brace. */
  lemma BracedFirst(s: string, m: ImageMatch)
    requires AtCI(s, m.attr, "src=") && m.attr + 4 < |s| && s[m.attr + 4] == '{' && m.srcStart == m.attr + 4
    requires BareFrom(s, m.attr, m.attr + 4).Some?
    requires BareFrom(s, m.attr, m.attr + 4) == Some(m) || Below(m, BareFrom(s, m.attr, m.attr + 4).value)
    ensures BareAt(s, m.attr).Some?
    ensures BareAt(s, m.attr) == Some(m) || Below(m, BareAt(s, m.attr).value)
  {
    var braced := BareFrom(s, m.attr, m.attr + 5);
    if braced.Some? {
      assert BareAt(s, m.attr) == braced;
      assert Below(m, braced.value);
    }
  }

  lemma ValueAtComplete(s: string, m: ImageMatch, pat: ImagePattern)
    requires ValueShape(s, m, pat)
    ensures ValueAt(s, m.attr, pat).Some?
    ensures ValueAt(s, m.attr, pat) == Some(m) || Below(m, ValueAt(s, m.attr, pat).value)
  {
    match pat
    case Quoted => QuotedAtComplete(s, m);
    case Bare => BareAtComplete(s, m);
  }

  lemma {:induction false} LastAttrComplete(s: string, lo: nat, a: nat, pat: ImagePattern, m: ImageMatch)
    requires lo <= m.attr <= a
    requires ValueShape(s, m, pat)
    ensures LastAttr(s, lo, a, pat).Some?
    ensures LastAttr(s, lo, a, pat) == Some(m) || Below(m, LastAttr(s, lo, a, pat).value)
    decreases a - lo
  {
    if m.attr == a {
      ValueAtComplete(s, m, pat);
    } else if LastAttr(s, lo, a, pat) == LastAttr(s, lo, a - 1, pat) {
      LastAttrComplete(s, lo, a - 1, pat, m);
    }
  }

  lemma MatchImageComplete(s: string, p: nat, pat: ImagePattern, m: ImageMatch)
    requires Shape(s, p, m, pat)
    ensures MatchImage(s, p, pat).Some?
    ensures MatchImage(s, p, pat) == Some(m) || Below(m, MatchImage(s, p, pat).value)
  {
    var g := match FindChar(s, '>', p + 6) case Some(t) => t case None => |s|;
    assert m.attr <= g;
    LastAttrComplete(s, p + 6, g, pat, m);
  }

  /** The matcher is the pattern: MatchImage finds a match at p exactly when
      the pattern accepts some text starting at p, and it returns the one a
      backtracking engine tries first. */
  lemma MatchImageCorrect(s: string, p: nat, pat: ImagePattern)
    ensures MatchImage(s, p, pat).None? <==> forall m :: !Shape(s, p, m, pat)
    ensures MatchImage(s, p, pat).Some? ==>
      forall m :: Shape(s, p, m, pat) && m != MatchImage(s, p, pat).value ==> Below(m, MatchImage(s, p, pat).value)
  {
    MatchImageSound(s, p, pat);
    forall m | Shape(s, p, m, pat)
      ensures MatchImage(s, p, pat).Some?
      ensures MatchImage(s, p, pat) == Some(m) || Below(m, MatchImage(s, p, pat).value)
    {
      MatchImageComplete(s, p, pat, m);
    }
  }
}
