/**
 * The content normaliser of the live preview: the chain of string rewrites
 * that turns the generated code into the fragment written into the preview's
 * `<body id="root">`, and the rebasing of root-relative image sources after
 * the fragment is in place.
 */
module Normalize {
  import opened Text
  import opened Images

  const Fence := "```"
  const FenceHtml := "```html"

  // ---------------------------------------------------------------------
  // Body extraction: /\<body[\s\S]*?>([\s\S]*?)<\/body>/i
  // ---------------------------------------------------------------------

  /** One way the body pattern can match: `<body` (any case) at i, the `>`
      closing that tag at k, and `</body>` (any case) at e. */
  ghost predicate BodyMatch(s: string, i: nat, k: nat, e: nat)
  {
    AtCI(s, i, "<body") && i + 5 <= k && AtCI(s, k, ">") && k + 1 <= e && AtCI(s, e, "</body>")
  }

  /** The match a backtracking engine reports for the lazy pattern: the
      leftmost start, then the shortest tag, then the shortest content. It is
      in fact no later than any other match in each of the three positions. */
  ghost predicate FirstBodyMatch(s: string, i: nat, k: nat, e: nat)
  {
    BodyMatch(s, i, k, e)
    && forall i': nat, k': nat, e': nat :: BodyMatch(s, i', k', e') ==> i <= i' && k <= k' && e <= e'
  }

  /** The three searches of the lazy pattern. */
  function BodyRegion(s: string): Option<(nat, nat, nat)>
  {
    match FindCI(s, "<body", 0)
    case None => None
    case Some(i) =>
      match FindCI(s, ">", i + 5)
      case None => None
      case Some(k) =>
        match FindCI(s, "</body>", k + 1)
        case None => None
        case Some(e) => Some((i, k, e))
  }

  /** The searches find the match the engine reports, and none exists when
      they fail. */
  lemma BodyRegionSpec(s: string)
    ensures BodyRegion(s).Some? ==> FirstBodyMatch(s, BodyRegion(s).value.0, BodyRegion(s).value.1, BodyRegion(s).value.2)
    ensures BodyRegion(s).None? ==> forall i: nat, k: nat, e: nat :: !BodyMatch(s, i, k, e)
  {
  }

  /** Lines 192-195: the content of the first body element if the code holds
      one, otherwise the code itself. */
  function ExtractBody(html: string): string
  {
    match BodyRegion(html)
    case None => html
    case Some((i, k, e)) =>
      BodyRegionSpec(html);
      html[k + 1..e]
  }

  lemma ExtractBodySpec(html: string)
    ensures (forall i: nat, k: nat, e: nat :: !BodyMatch(html, i, k, e)) ==> ExtractBody(html) == html
    ensures forall i: nat, k: nat, e: nat :: FirstBodyMatch(html, i, k, e) ==> ExtractBody(html) == html[k + 1..e]
  {
    BodyRegionSpec(html);
  }

  // ---------------------------------------------------------------------
  // Fence stripping, line 198:
  //   .replaceAll("```html", "").replaceAll("```", "").replace("html", "")
  // ---------------------------------------------------------------------

  /** The text after the two replaceAll calls. */
  function Unfenced(s: string): string
  {
    RemoveAll(RemoveAll(s, FenceHtml), Fence)
  }

  function StripFences(s: string): string
  {
    ReplaceFirst(Unfenced(s), "html", "")
  }

  /** Line 198: both fences go everywhere, then the first remaining "html"
      (if any) goes. */
  lemma StripFencesSpec(s: string)
    ensures (forall j: nat :: !At(Unfenced(s), j, "html")) ==> StripFences(s) == Unfenced(s)
    ensures forall p: nat :: At(Unfenced(s), p, "html") && (forall j: nat :: j < p ==> !At(Unfenced(s), j, "html")) ==>
      StripFences(s) == Unfenced(s)[..p] + Unfenced(s)[p + 4..]
  {
    var u := Unfenced(s);
    if forall j: nat :: !At(u, j, "html") {
      ReplaceFirstMissing(u, "html", "");
    }
    forall p: nat | At(u, p, "html") && (forall j: nat :: j < p ==> !At(u, j, "html"))
      ensures StripFences(s) == u[..p] + u[p + 4..]
    {
      ReplaceFirstAt(u, "html", "", p);
    }
  }

  /** The strip is not idempotent: each pass removes one more leading
      "html" from text without backticks. */
  lemma StripFencesNotIdempotent(x: string)
    requires forall i :: 0 <= i < |x| ==> x[i] != '`'
    ensures StripFences("html" + ("html" + x)) == "html" + x
    ensures StripFences(StripFences("html" + ("html" + x))) == x
  {
    StripLeadingHtml(x);
    var y := "html" + x;
    forall i | 0 <= i < |y| ensures y[i] != '`' {
      if i >= 4 { assert y[i] == x[i - 4]; }
    }
    StripLeadingHtml(y);
  }

  /** Without backticks, a leading "html" is the one that goes. */
  lemma StripLeadingHtml(x: string)
    requires forall i :: 0 <= i < |x| ==> x[i] != '`'
    ensures StripFences("html" + x) == x
  {
    var s := "html" + x;
    forall i | 0 <= i < |s| ensures s[i] != '`' {
      if i >= 4 { assert s[i] == x[i - 4]; }
    }
    NoBacktickUnfenced(s);
    ReplaceFirstAt(s, "html", "", 0);
    assert s[4..] == x;
  }

  /** Text without backticks has no fence to remove. */
  lemma NoBacktickUnfenced(s: string)
    requires forall i :: 0 <= i < |s| ==> s[i] != '`'
    ensures Unfenced(s) == s
  {
    forall j: nat | j < |s| ensures !At(s, j, FenceHtml) && !At(s, j, Fence) {
      assert s[j + 0] != FenceHtml[0] && s[j + 0] != Fence[0];
    }
    RemoveAllSpec(s, FenceHtml);
    RemoveAllSpec(s, Fence);
  }

  /** The number of backticks `s` starts with. */
  function LeadTicks(s: string): nat
    decreases |s|
  {
    if s != [] && s[0] == '`' then 1 + LeadTicks(s[1..]) else 0
  }

  lemma AtCons(c: char, t: string, j: nat, pat: string)
    ensures At([c] + t, j + 1, pat) == At(t, j, pat)
  {
  }

  lemma LeadTicksCons(c: char, t: string)
    ensures LeadTicks([c] + t) == if c == '`' then 1 + LeadTicks(t) else 0
  {
    assert ([c] + t)[1..] == t;
  }

  lemma LeadTicksBound(s: string)
    ensures LeadTicks(s) <= |s|
  {
  }

  /** A fence starts the text exactly when it starts with three backticks. */
  lemma LeadTicksFence(r: string)
    ensures At(r, 0, Fence) <==> LeadTicks(r) >= 3
  {
    if |r| >= 3 {
      assert r == [r[0]] + r[1..];
      assert r[1..] == [r[1]] + r[2..];
      assert r[2..] == [r[2]] + r[3..];
      LeadTicksCons(r[0], r[1..]);
      LeadTicksCons(r[1], r[2..]);
      LeadTicksCons(r[2], r[3..]);
      assert At(r, 0, Fence) <==> r[0] == '`' && r[1] == '`' && r[2] == '`' by {
        assert Fence[0] == '`' && Fence[1] == '`' && Fence[2] == '`';
        assert |Fence| == 3;
      }
    } else {
      LeadTicksBound(r);
    }
  }

  /** Removing every "```" left to right leaves no "```", and a text that
      starts with fewer than three backticks keeps its leading backticks:
      only backticks are removed, so runs of them never merge. */
  lemma {:induction false} RemoveFenceLeavesNone(s: string)
    ensures forall j: nat :: !At(RemoveAll(s, Fence), j, Fence)
    ensures LeadTicks(s) < 3 ==> LeadTicks(RemoveAll(s, Fence)) == LeadTicks(s)
    decreases |s|
  {
    if |s| < 3 {
      LeadTicksBound(s);
    } else if At(s, 0, Fence) {
      RemoveFenceLeavesNone(s[3..]);
      LeadTicksFence(s);
    } else {
      RemoveFenceLeavesNone(s[1..]);
      KeptCharLeavesNone(s);
    }
  }

  /** The step of RemoveAll that keeps the first character. */
  lemma KeptCharStep(s: string)
    requires |s| >= 3 && !At(s, 0, Fence)
    ensures RemoveAll(s, Fence) == [s[0]] + RemoveAll(s[1..], Fence)
  {
  }

  /** Keeping the first character keeps the leading backticks. */
  lemma KeptCharTicks(s: string)
    requires |s| >= 3 && !At(s, 0, Fence)
    requires LeadTicks(s[1..]) < 3 ==> LeadTicks(RemoveAll(s[1..], Fence)) == LeadTicks(s[1..])
    ensures LeadTicks(RemoveAll(s, Fence)) == LeadTicks(s)
  {
    KeptCharStep(s);
    assert s == [s[0]] + s[1..];
    LeadTicksCons(s[0], s[1..]);
    LeadTicksCons(s[0], RemoveAll(s[1..], Fence));
    LeadTicksFence(s);
  }

  /** Keeping the first character adds no fence. */
  lemma KeptCharLeavesNone(s: string)
    requires |s| >= 3 && !At(s, 0, Fence)
    requires forall j: nat :: !At(RemoveAll(s[1..], Fence), j, Fence)
    requires LeadTicks(s[1..]) < 3 ==> LeadTicks(RemoveAll(s[1..], Fence)) == LeadTicks(s[1..])
    ensures forall j: nat :: !At(RemoveAll(s, Fence), j, Fence)
    ensures LeadTicks(RemoveAll(s, Fence)) == LeadTicks(s)
  {
    var t := RemoveAll(s[1..], Fence);
    var r := RemoveAll(s, Fence);
    KeptCharStep(s);
    KeptCharTicks(s);
    LeadTicksFence(s);
    LeadTicksFence(r);
    NoFenceCons(s[0], t);
  }

  /** A character put in front of text without a fence adds a fence only
      at the front. */
  lemma NoFenceCons(c: char, t: string)
    requires forall j: nat :: !At(t, j, Fence)
    requires !At([c] + t, 0, Fence)
    ensures forall j: nat :: !At([c] + t, j, Fence)
  {
    forall j: nat | j >= 1 ensures !At([c] + t, j, Fence) {
      AtCons(c, t, j - 1, Fence);
    }
  }

  /** After the two replaceAll calls of line 198 no "```" is left. */
  lemma NoFenceAfterReplaceAll(s: string)
    ensures forall j: nat :: !At(Unfenced(s), j, Fence)
  {
    RemoveFenceLeavesNone(RemoveAll(s, FenceHtml));
  }

  // ---------------------------------------------------------------------
  // Rebasing root-relative image sources, lines 214-221
  // ---------------------------------------------------------------------

  /** One image after `img.getAttribute('src') || ''`: a source that starts
      with "/" (also a protocol-relative "//host/...") gets the origin in
      front; an empty, absolute or missing source is left alone. */
  function Rebased(src: Option<string>, origin: string): (r: Option<string>)
    ensures r.Some? <==> src.Some?
    ensures src.Some? && StartsWith(src.value, "/") ==> r == Some(origin + src.value)
    ensures !(src.Some? && StartsWith(src.value, "/")) ==> r == src
  {
    match src
    case Some(v) => if StartsWith(v, "/") then Some(origin + v) else src
    case None => None
  }

  /** The forEach over `root.querySelectorAll('img')`, updating each image's
      src attribute in place. */
  method RebaseImages(imgs: array<Option<string>>, origin: string)
    modifies imgs
    ensures forall i :: 0 <= i < imgs.Length ==> imgs[i] == Rebased(old(imgs[i]), origin)
  {
    var i := 0;
    while i < imgs.Length
      invariant 0 <= i <= imgs.Length
      invariant forall j :: 0 <= j < i ==> imgs[j] == Rebased(old(imgs[j]), origin)
      invariant forall j :: i <= j < imgs.Length ==> imgs[j] == old(imgs[j])
    {
      imgs[i] := Rebased(imgs[i], origin);
      i := i + 1;
    }
  }

  // ---------------------------------------------------------------------
  // The whole rewrite of lines 182-203
  // ---------------------------------------------------------------------

  /** The fragment written into the preview's root for a generated code. */
  function Normalized(generatedCode: string): string
  {
    RewriteImages(StripFences(ExtractBody(generatedCode)))
  }
}
