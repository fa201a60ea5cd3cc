/** The program's own logic around the resolver: turning what the user typed
    into a URL to fetch (the prompt loop of `Main`), and the line written for
    each anchor of the fetched page (`FindAllTheAnchors`). */
module Scraper {
  import opened Wrappers
  import opened TextOps
  import opened UrlResolver
  import opened Tidying

  // ---------------------------------------------------------------------
  // Reading URLs

  /** What `Regex("http://|https://").IsMatch` answers: either marker,
      anywhere in the text. */
  predicate HasHttpScheme(url: string) {
    Contains(url, "http://") || Contains(url, "https://")
  }

  /** The URL `Main` fetches for one line of input, or `None` when the line
      is null or empty and the program stops. Input that mentions a marker
      anywhere is kept as it is; any other gets "http://" in front. */
  function NormaliseUrl(input: Option<string>): (url: Option<string>)
    ensures url.None? <==> input.None? || input == Some("")
    ensures url.Some? ==> HasHttpScheme(url.value)
    ensures url.Some? ==> |input.value| <= |url.value| &&
                          url.value[|url.value| - |input.value|..] == input.value
    ensures url.Some? && HasHttpScheme(input.value) ==> url == input
  {
    match input
    case None => None
    case Some(u) =>
      if u == "" then None
      else if HasHttpScheme(u) then Some(u)
      else
        assert OccursAt("http://" + u, "http://", 0);
        Some("http://" + u)
  }

  /** The URLs fetched, in order, for the lines read from the console,
      starting with the `k`-th fetch. `reachesClassPrompt(k)` says whether
      the `k`-th fetched page gets as far as the class-name prompt, that is
      whether loading it and the steps before that prompt raise nothing; the
      line read there is a class name, not a URL, and is never fetched. A
      null or empty URL line ends the loop; a failed fetch does not, and
      neither does an empty class name. Reading past the end of the input
      yields null. */
  function VisitFrom(inputs: seq<Option<string>>, reachesClassPrompt: nat -> bool, k: nat)
    : (urls: seq<string>)
    ensures |urls| <= |inputs|
    ensures |urls| == 0 <==> |inputs| == 0 || NormaliseUrl(inputs[0]).None?
    ensures |urls| > 0 ==> NormaliseUrl(inputs[0]) == Some(urls[0])
    decreases |inputs|
  {
    if |inputs| == 0 then []
    else match NormaliseUrl(inputs[0])
      case None => []
      case Some(u) =>
        var rest := inputs[1..];
        var next := if reachesClassPrompt(k) && |rest| > 0 then rest[1..] else rest;
        [u] + VisitFrom(next, reachesClassPrompt, k + 1)
  }

  /** The URLs `Main` fetches for the whole console input. */
  function VisitedUrls(inputs: seq<Option<string>>, reachesClassPrompt: nat -> bool)
    : (urls: seq<string>)
    ensures |urls| <= |inputs|
    ensures |urls| == 0 <==> |inputs| == 0 || NormaliseUrl(inputs[0]).None?
  {
    VisitFrom(inputs, reachesClassPrompt, 0)
  }

  /** After a page that reaches the class-name prompt, the next line is
      consumed as the class name whatever it holds, even when it is empty,
      and URL reading resumes with the line after it. */
  lemma ClassNameLineSkipped(u: string, className: Option<string>, more: seq<Option<string>>,
                             reachesClassPrompt: nat -> bool, k: nat)
    requires u != "" && reachesClassPrompt(k)
    ensures VisitFrom([Some(u)] + [className] + more, reachesClassPrompt, k) ==
              [NormaliseUrl(Some(u)).value] + VisitFrom(more, reachesClassPrompt, k + 1)
  {
    var inputs := [Some(u)] + [className] + more;
    assert inputs[0] == Some(u);
    assert inputs[1..][1..] == more;
  }

  /** An empty line given as the class name does not end the loop: for the
      lines `a`, "", `b`, where the first page reaches the class-name prompt,
      both `a` and `b` are fetched. */
  lemma EmptyClassNameDoesNotStop(a: string, b: string, reachesClassPrompt: nat -> bool)
    requires a != "" && b != "" && reachesClassPrompt(0)
    ensures VisitedUrls([Some(a), Some(""), Some(b)], reachesClassPrompt) ==
              [NormaliseUrl(Some(a)).value, NormaliseUrl(Some(b)).value]
  {
    assert [Some(a), Some(""), Some(b)] == [Some(a)] + [Some("")] + [Some(b)];
    ClassNameLineSkipped(a, Some(""), [Some(b)], reachesClassPrompt, 0);
    var tail := VisitFrom([Some(b)], reachesClassPrompt, 1);
    assert |tail| == 1;
  }

  /** After a page that fails before the class-name prompt (no anchors, say,
      or a failed load), the very next line is read as a URL again. */
  lemma FailedPageReadsNextUrl(u: string, more: seq<Option<string>>,
                               reachesClassPrompt: nat -> bool, k: nat)
    requires u != "" && !reachesClassPrompt(k)
    ensures VisitFrom([Some(u)] + more, reachesClassPrompt, k) ==
              [NormaliseUrl(Some(u)).value] + VisitFrom(more, reachesClassPrompt, k + 1)
  {
    assert ([Some(u)] + more)[1..] == more;
  }

  /** Input without either marker gets "http://" in front. */
  lemma NormaliseAddsHttp(u: string)
    requires u != "" && !HasHttpScheme(u)
    ensures NormaliseUrl(Some(u)) == Some("http://" + u)
  {
  }

  /** Normalising a URL that was already normalised changes nothing. */
  lemma NormaliseIdempotent(input: Option<string>)
    requires NormaliseUrl(input).Some?
    ensures NormaliseUrl(NormaliseUrl(input)) == NormaliseUrl(input)
  {
  }

  /** The marker need not be at the start: input that carries "http://"
      anywhere, say in a query string, is fetched exactly as typed. */
  lemma NormaliseKeepsMarkerAnywhere(before: string, after: string)
    ensures NormaliseUrl(Some(before + "http://" + after)) == Some(before + "http://" + after)
  {
    var u := before + "http://" + after;
    assert u[|before|..|before| + 7] == "http://";
    assert OccursAt(u, "http://", |before|);
  }

  /** When no page reaches the class-name prompt, every line read is a URL
      line, and the `i`-th URL fetched is the `i`-th line, normalised. */
  lemma {:induction false} VisitedWithoutPrompt(inputs: seq<Option<string>>,
                                                reachesClassPrompt: nat -> bool, k: nat)
    requires forall j :: k <= j ==> !reachesClassPrompt(j)
    ensures var urls := VisitFrom(inputs, reachesClassPrompt, k);
            forall i :: 0 <= i < |urls| ==> NormaliseUrl(inputs[i]) == Some(urls[i])
    decreases |inputs|
  {
    var urls := VisitFrom(inputs, reachesClassPrompt, k);
    if |urls| > 0 {
      var rest := inputs[1..];
      var u := inputs[0].value;
      assert inputs == [Some(u)] + rest;
      FailedPageReadsNextUrl(u, rest, reachesClassPrompt, k);
      VisitedWithoutPrompt(rest, reachesClassPrompt, k + 1);
      var tail := VisitFrom(rest, reachesClassPrompt, k + 1);
      forall i | 0 < i < |urls|
        ensures NormaliseUrl(inputs[i]) == Some(urls[i])
      {
        assert inputs[i] == rest[i - 1] && urls[i] == tail[i - 1];
      }
    }
  }

  /** When no page reaches the class-name prompt, exactly the lines before
      the first null or empty one are fetched. */
  lemma {:induction false} VisitedStopsAtFirstBlank(inputs: seq<Option<string>>,
                                                    reachesClassPrompt: nat -> bool, k: nat, n: nat)
    requires forall j :: k <= j ==> !reachesClassPrompt(j)
    requires n < |inputs| && (inputs[n].None? || inputs[n] == Some(""))
    requires forall i :: 0 <= i < n ==> inputs[i].Some? && inputs[i] != Some("")
    ensures |VisitFrom(inputs, reachesClassPrompt, k)| == n
    decreases n
  {
    if n > 0 {
      VisitStepLength(inputs, reachesClassPrompt, k);
      UrlLinesShift(inputs, n);
      VisitedStopsAtFirstBlank(inputs[1..], reachesClassPrompt, k + 1, n - 1);
    }
  }

  /** Dropping the first of `n` URL lines leaves `n - 1` URL lines followed
      by the same blank line. */
  lemma UrlLinesShift(inputs: seq<Option<string>>, n: nat)
    requires 0 < n < |inputs|
    requires forall i :: 0 <= i < n ==> inputs[i].Some? && inputs[i] != Some("")
    ensures inputs[1..][n - 1] == inputs[n]
    ensures forall i :: 0 <= i < n - 1 ==> inputs[1..][i].Some? && inputs[1..][i] != Some("")
  {
    forall i | 0 <= i < n - 1
      ensures inputs[1..][i].Some? && inputs[1..][i] != Some("")
    {
      assert inputs[1..][i] == inputs[i + 1];
    }
  }

  /** A URL line whose page fails before the class-name prompt adds one URL. */
  lemma VisitStepLength(inputs: seq<Option<string>>, reachesClassPrompt: nat -> bool, k: nat)
    requires |inputs| > 0 && inputs[0].Some? && inputs[0] != Some("")
    requires !reachesClassPrompt(k)
    ensures |VisitFrom(inputs, reachesClassPrompt, k)| ==
              1 + |VisitFrom(inputs[1..], reachesClassPrompt, k + 1)|
  {
  }

  // ---------------------------------------------------------------------
  // Writing anchors

  /** One `<a>` element: its href attribute, if present, and its inner text. */
  datatype Anchor = Anchor(href: Option<string>, innerText: string)

  /** Written in place of a URL for an anchor without an href. */
  const NoHref: string := "No href present!"

  /** The line written for one anchor: the complete URL, or the placeholder
      when there is no href, then " | " and the tidied inner text. */
  function AnchorLine(scheme: string, absoluteUri: string, a: Anchor): (line: string)
    ensures var tail := " | " + Tidy(Some(a.innerText));
            |tail| <= |line| && line[|line| - |tail|..] == tail
    ensures a.href.None? ==> line == NoHref + " | " + Tidy(Some(a.innerText))
    ensures a.href.Some? ==> line[..|line| - |" | " + Tidy(Some(a.innerText))|] ==
                               Resolve(scheme, absoluteUri, a.href.value)
  {
    var head := match a.href
      case Some(h) => Resolve(scheme, absoluteUri, h)
      case None => NoHref;
    var tail := " | " + Tidy(Some(a.innerText));
    assert (head + tail)[..|head|] == head && (head + tail)[|head|..] == tail;
    head + tail
  }

  /** `FindAllTheAnchors`: one line per anchor, in document order. When the
      page has no anchors the query yields null, the loop dereferences it
      without a check, and the step fails. */
  method FindAllTheAnchors(scheme: string, absoluteUri: string, anchors: Option<seq<Anchor>>)
    returns (lines: Result<seq<string>>)
    ensures lines.Failure? <==> anchors.None?
    ensures anchors.Some? ==> |lines.value| == |anchors.value|
    ensures anchors.Some? ==> forall i :: 0 <= i < |anchors.value| ==>
              lines.value[i] == AnchorLine(scheme, absoluteUri, anchors.value[i])
  {
    if anchors.None? {
      return Failure("Object reference not set to an instance of an object.");
    }
    var all := anchors.value;
    var out: seq<string> := [];
    var i := 0;
    while i < |all|
      invariant 0 <= i <= |all|
      invariant |out| == i
      invariant forall j :: 0 <= j < i ==> out[j] == AnchorLine(scheme, absoluteUri, all[j])
    {
      out := out + [AnchorLine(scheme, absoluteUri, all[i])];
      i := i + 1;
    }
    return Success(out);
  }

  /** An anchor whose stripped href is already absolute has its href written
      verbatim at the start of its line. */
  lemma AbsoluteHrefWrittenVerbatim(scheme: string, absoluteUri: string, a: Anchor)
    requires a.href.Some? && SchemeMarker(scheme) <= Strip(a.href.value)
    ensures a.href.value <= AnchorLine(scheme, absoluteUri, a)
  {
    ResolveAbsolute(scheme, absoluteUri, a.href.value);
  }
}
