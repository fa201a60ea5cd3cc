/** Turning an anchor's href into a "complete" URL relative to the fetched
    page, as `FindAllTheAnchors` does for every anchor that has an href. */
module UrlResolver {
  import opened TextOps

  /** What the fetched page contributes: its scheme and the pieces of its
      absolute URI, split on '/', once every "scheme://" has been removed. */
  datatype BaseReference = BaseReference(scheme: string, parts: seq<string>)

  /** The separator between a scheme and the host, as in "http://". */
  function SchemeMarker(scheme: string): (m: string)
    ensures |m| == |scheme| + 3 && m[|scheme|] == ':'
  {
    scheme + "://"
  }

  /** The pattern that walks one directory up. */
  const UpLevel: string := "../"

  /** Built once per page from `ResponseUri.Scheme` and `ResponseUri.AbsoluteUri`. */
  function BaseOf(scheme: string, absoluteUri: string): (b: BaseReference)
    ensures b.scheme == scheme
    ensures |b.parts| >= 1
    ensures Join(b.parts, '/') == Replace(absoluteUri, SchemeMarker(scheme), "")
    ensures forall i :: 0 <= i < |b.parts| ==> '/' !in b.parts[i]
  {
    var path := Replace(absoluteUri, SchemeMarker(scheme), "");
    SplitJoin(path, '/');
    BaseReference(scheme, Split(path, '/'))
  }

  /** `partsToUriCount`: the pieces less the last one (a page name, or the
      empty piece after a trailing '/'). `BaseOf` always yields at least one
      piece, so it is never negative. */
  function PartsCount(b: BaseReference): (n: int)
    requires |b.parts| >= 1
    ensures 0 <= n < |b.parts|
  {
    |b.parts| - 1
  }

  /** The walk-up prefix "/" + parts[0] + "/" + ... + "/" + parts[stopAt - 1];
      empty when `stopAt <= 0`. */
  function PathPrefix(parts: seq<string>, stopAt: int): (p: string)
    requires stopAt <= |parts|
    ensures stopAt > 0 ==> |p| > 0 && p[0] == '/'
  {
    if stopAt <= 0 then "" else "/" + Join(parts[..stopAt], '/')
  }

  /** The href with every "../" removed in one pass. */
  function Cleaned(href: string): (c: string)
    ensures |c| <= |Strip(href)|
  {
    Replace(Strip(href), UpLevel, "")
  }

  /** The complete URL written for an anchor whose href is `href`, on a page
      whose response URI has scheme `scheme` and absolute form `absoluteUri`.
      An href that already starts with "scheme://" once stripped is kept as
      it was; any other is completed from the page's pieces. */
  function Resolve(scheme: string, absoluteUri: string, href: string): (url: string)
    ensures !(SchemeMarker(scheme) <= Strip(href)) ==>
              |Cleaned(href)| <= |url| && url[|url| - |Cleaned(href)|..] == Cleaned(href)
  {
    var rawAnchor := Strip(href);
    if SchemeMarker(scheme) <= rawAnchor then
      href
    else
      Complete(BaseOf(scheme, absoluteUri), rawAnchor)
  }

  /** The branches for a stripped href that is not absolute, tried in the
      source's order: walk-up, protocol-relative, then everything else. Each
      ends with the href less its "../" pieces; the two branches taken when
      there is no "../" end with the stripped href itself. */
  function Complete(b: BaseReference, rawAnchor: string): (url: string)
    requires |b.parts| >= 1
    ensures var cleaned := Replace(rawAnchor, UpLevel, "");
            |cleaned| <= |url| && url[|url| - |cleaned|..] == cleaned
    ensures !Contains(rawAnchor, UpLevel) ==>
              |rawAnchor| <= |url| && url[|url| - |rawAnchor|..] == rawAnchor
  {
    var cleaned := Replace(rawAnchor, UpLevel, "");
    if Contains(rawAnchor, UpLevel) then
      if PartsCount(b) == 1 then
        SchemeMarker(b.scheme) + b.parts[0] + cleaned
      else
        CountOccPositive(rawAnchor, UpLevel);
        var levelsUp := CountOcc(rawAnchor, UpLevel);
        var stopAt := PartsCount(b) - levelsUp;
        PathPrefix(b.parts, stopAt) + cleaned
    else if "//" <= rawAnchor then
      ReplaceAbsent(rawAnchor, UpLevel, "");
      b.scheme + ":" + cleaned
    else
      ReplaceAbsent(rawAnchor, UpLevel, "");
      SchemeMarker(b.scheme) + b.parts[0] + cleaned
  }

  /** The source's `while (i < stopAt)` loop that builds the walk-up prefix,
      one "/" + piece at a time. Every index it reads is in range. */
  method WalkUpPrefix(parts: seq<string>, stopAt: int) returns (completeUrl: string)
    requires stopAt <= |parts|
    ensures stopAt <= 0 ==> completeUrl == ""
    ensures stopAt > 0 ==> completeUrl == "/" + Join(parts[..stopAt], '/')
  {
    completeUrl := "";
    var i := 0;
    while i < stopAt
      invariant 0 <= i && (i <= stopAt || i == 0)
      invariant completeUrl == PathPrefix(parts, i)
    {
      PathPrefixStep(parts, i);
      completeUrl := completeUrl + "/" + parts[i];
      i := i + 1;
    }
  }

  /** One more loop iteration appends "/" and the next piece. */
  lemma PathPrefixStep(parts: seq<string>, i: nat)
    requires i < |parts|
    ensures PathPrefix(parts, i + 1) == PathPrefix(parts, i) + "/" + parts[i]
  {
    if i > 0 {
      assert parts[..i + 1] == parts[..i] + [parts[i]];
      JoinAppend(parts[..i], [parts[i]], '/');
    }
  }

  // ---------------------------------------------------------------------
  // The base reference

  /** With at least one '/' after the host, `partsToUriCount` is at least one. */
  lemma PartsCountRange(scheme: string, absoluteUri: string)
    ensures '/' in Replace(absoluteUri, SchemeMarker(scheme), "") ==>
              PartsCount(BaseOf(scheme, absoluteUri)) >= 1
  {
    var b := BaseOf(scheme, absoluteUri);
    if |b.parts| == 1 {
      assert Join(b.parts, '/') == b.parts[0];
    }
  }

  // ---------------------------------------------------------------------
  // One lemma per branch

  /** Removing the "../" pieces shortens the stripped href by three characters
      per piece counted. */
  lemma CleanedLength(href: string)
    ensures |Cleaned(href)| == |Strip(href)| - 3 * CountOcc(Strip(href), UpLevel)
  {
    ReplaceLength(Strip(href), UpLevel, "");
    assert |UpLevel| == 3;
  }

  /** An href that is already absolute is returned verbatim: the original
      value, whitespace and all, not the stripped one. */
  lemma ResolveAbsolute(scheme: string, absoluteUri: string, href: string)
    requires SchemeMarker(scheme) <= Strip(href)
    ensures Resolve(scheme, absoluteUri, href) == href
  {
  }

  /** Walking up from a page directly under the host only removes the "../"
      pieces, and puts nothing between the host and what is left. */
  lemma ResolveWalkUpSingle(scheme: string, absoluteUri: string, href: string)
    requires !(SchemeMarker(scheme) <= Strip(href))
    requires Contains(Strip(href), UpLevel)
    requires PartsCount(BaseOf(scheme, absoluteUri)) == 1
    ensures Resolve(scheme, absoluteUri, href) ==
              SchemeMarker(scheme) + BaseOf(scheme, absoluteUri).parts[0] + Cleaned(href)
    ensures |Cleaned(href)| == |Strip(href)| - 3 * CountOcc(Strip(href), UpLevel)
    ensures CountOcc(Strip(href), UpLevel) >= 1
  {
    CleanedLength(href);
    CountOccPositive(Strip(href), UpLevel);
  }

  /** The general walk-up: the first `partsToUriCount - levelsUp` pieces, each
      preceded by "/", then the cleaned href with no scheme and no separator.
      `levelsUp` is at least one, so every piece read exists; the prefix is
      empty when there are at least as many "../" as pieces to drop. */
  lemma ResolveWalkUp(scheme: string, absoluteUri: string, href: string)
    requires !(SchemeMarker(scheme) <= Strip(href))
    requires Contains(Strip(href), UpLevel)
    requires PartsCount(BaseOf(scheme, absoluteUri)) != 1
    ensures var b := BaseOf(scheme, absoluteUri);
            var levelsUp := CountOcc(Strip(href), UpLevel);
            var stopAt := PartsCount(b) - levelsUp;
            && levelsUp >= 1
            && stopAt < |b.parts|
            && Resolve(scheme, absoluteUri, href) == PathPrefix(b.parts, stopAt) + Cleaned(href)
            && (stopAt <= 0 ==> Resolve(scheme, absoluteUri, href) == Cleaned(href))
            && |Cleaned(href)| == |Strip(href)| - 3 * levelsUp
  {
    ResolveIsComplete(scheme, absoluteUri, href);
    CountOccPositive(Strip(href), UpLevel);
    CompleteWalkUp(BaseOf(scheme, absoluteUri), Strip(href));
    CleanedLength(href);
  }

  /** Outside the absolute branch, `Resolve` is `Complete` on the page's base
      reference and the stripped href. */
  lemma ResolveIsComplete(scheme: string, absoluteUri: string, href: string)
    requires !(SchemeMarker(scheme) <= Strip(href))
    ensures Resolve(scheme, absoluteUri, href) == Complete(BaseOf(scheme, absoluteUri), Strip(href))
  {
  }

  /** The walk-up branch of `Complete` on its own. */
  lemma CompleteWalkUp(b: BaseReference, raw: string)
    requires |b.parts| >= 1 && PartsCount(b) != 1 && Contains(raw, UpLevel)
    ensures Complete(b, raw) ==
              PathPrefix(b.parts, PartsCount(b) - CountOcc(raw, UpLevel)) + Replace(raw, UpLevel, "")
  {
  }

  /** The walk-up prefix is a leading part of "/" + the URI with its scheme
      marker removed, cut just before a '/': it keeps whole pieces only. */
  lemma WalkUpPrefixIsBasePath(scheme: string, absoluteUri: string, stopAt: int)
    requires 0 < stopAt < |BaseOf(scheme, absoluteUri).parts|
    ensures PathPrefix(BaseOf(scheme, absoluteUri).parts, stopAt) + "/" <=
              "/" + Replace(absoluteUri, SchemeMarker(scheme), "")
  {
    var b := BaseOf(scheme, absoluteUri);
    JoinPrefix(b.parts, stopAt, '/');
  }

  /** A protocol-relative href gets the page's scheme and a colon; since it
      holds no "../", the removal changes nothing. */
  lemma ResolveSchemeRelative(scheme: string, absoluteUri: string, href: string)
    requires !(SchemeMarker(scheme) <= Strip(href))
    requires !Contains(Strip(href), UpLevel)
    requires "//" <= Strip(href)
    ensures Resolve(scheme, absoluteUri, href) == scheme + ":" + Strip(href)
  {
    ReplaceAbsent(Strip(href), UpLevel, "");
  }

  /** Anything else is appended to "scheme://" and the first piece (the host),
      unchanged apart from the whitespace stripping. */
  lemma ResolveHostRelative(scheme: string, absoluteUri: string, href: string)
    requires !(SchemeMarker(scheme) <= Strip(href))
    requires !Contains(Strip(href), UpLevel)
    requires !("//" <= Strip(href))
    ensures Resolve(scheme, absoluteUri, href) ==
              SchemeMarker(scheme) + BaseOf(scheme, absoluteUri).parts[0] + Strip(href)
  {
    ReplaceAbsent(Strip(href), UpLevel, "");
  }

  /** Apart from the absolute branch, only the stripped href matters: two
      hrefs that differ only in tab, CR, LF and space resolve alike. */
  lemma ResolveSeesStrippedHref(scheme: string, absoluteUri: string, h1: string, h2: string)
    requires Strip(h1) == Strip(h2)
    requires !(SchemeMarker(scheme) <= Strip(h1))
    ensures Resolve(scheme, absoluteUri, h1) == Resolve(scheme, absoluteUri, h2)
  {
  }

  /** Resolving the stripped href gives the same URL as resolving the href
      itself, in every branch except the absolute one. */
  lemma ResolveStripInvariant(scheme: string, absoluteUri: string, href: string)
    requires !(SchemeMarker(scheme) <= Strip(href))
    ensures Resolve(scheme, absoluteUri, Strip(href)) == Resolve(scheme, absoluteUri, href)
  {
    StripIdempotent(href);
  }
}
