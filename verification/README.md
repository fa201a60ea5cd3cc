# scraping-demo: href resolution, text tidying and URL input, in Dafny

`scraping-demo` is an interactive console program. It reads a URL, fetches
the page, and writes fragments of it to the debug log. Almost all of it is
calls into an HTML library. Its own logic is the rule that turns each
anchor's `href` into a "complete" URL relative to the fetched page. Two small
helpers sit beside that rule: `TidyValue`, the whitespace normaliser, and the
check in `Main` that puts "http://" in front of a typed URL.

This project models those three pieces as pure functions over `string`
(`seq<char>`) and proves what they do. The model includes the code's quirks
as they are; it does not fix them.

- `text.dfy` (`TextOps`) writes out the string primitives the code relies
  on. `Replace` is .NET `String.Replace`: one left-to-right pass over
  non-overlapping occurrences. `CountOcc` is the count `Regex.Matches`
  reports for a literal pattern. `Contains` is `IsMatch` for a literal
  pattern. `Split` and `Join` work on one separator character. `Strip` is
  `Regex.Replace(href, "[\t\r\n ]", "")`.
- `resolver.dfy` (`UrlResolver`) holds three things:
  - the page's base reference (`BaseOf`: the scheme plus the `'/'` pieces of
    the absolute URI);
  - the resolver itself (`Resolve`, with `Complete` for the non-absolute
    branches);
  - the source's walk-up loop (`WalkUpPrefix`), and one lemma per branch.
- `examples.dfy` (`ResolverExamples`) holds worked examples. Each pins down
  one edge of the resolver for every host, folder and page name of a given
  shape.
- `tidy.dfy` (`Tidying`) models `String.Trim` and `TidyValue`.
- `scraper.dfy` (`Scraper`) covers two parts of the program:
  - URL input in `Main`: the normalisation, and the loop that reads a URL
    line, stops at the first empty one, and after some pages uses up one
    more line as a class name;
  - the line `FindAllTheAnchors` writes for each anchor.
- `wrappers.dfy` defines `Option` and `Result`. They stand for C# `null` and
  for an exception that ends a step.

## Quirks the model keeps

These are behaviours of `scraping-demo/Program.cs` as written. The model
reproduces each one, and a lemma proves it.

- One level up from a page at the host's root, Program.cs:284 appends the
  cleaned href straight to `partsToUri[0]`, with no '/' between them. The
  comment at Program.cs:279-281 says that only `"../"` should be removed.
  So `"../product.html"` on `http://example.com/` gives
  `"http://example.comproduct.html"`
  (`ResolverExamples.ExampleWalkUpFromHostRoot`).
- In the general walk-up branch (Program.cs:288-301), the result can be
  empty: `"../../"` on a folder page `scheme://host/dir/` gives `""`
  (`ResolverExamples.ExampleWalkUpToNothing`).
- The regular expression at Program.cs:37 has no anchor. Input that holds
  `http://` or `https://` anywhere, not only at its start, is fetched as
  typed (`Scraper.NormaliseKeepsMarkerAnywhere`).
- An absolute href is written as the original attribute value at
  Program.cs:269, not the stripped `rawAnchor`, so any whitespace in it is
  kept (`UrlResolver.ResolveAbsolute`).
- After each page that gets as far as Program.cs:75, one console line is
  read as a class name. That line is never fetched, and an empty one does
  not end the loop (`Scraper.ClassNameLineSkipped`,
  `Scraper.EmptyClassNameDoesNotStop`).

## Model

| member | source | states |
|---|---|---|
| TextOps.Split | scraping-demo/Program.cs:247 | `Split('/')` always yields at least one piece, and no piece contains the separator |
| TextOps.SplitJoin | scraping-demo/Program.cs:247 | joining the pieces of `Split` with the separator gives back the original string |
| TextOps.JoinSplit | scraping-demo/Program.cs:247 | splitting the join of separator-free pieces gives back those pieces; with `SplitJoin`, this is a two-way round trip |
| TextOps.CountOccPositive | scraping-demo/Program.cs:275-288 | the `"../"` regex's `IsMatch` is true exactly when its `Matches(..).Count` is positive, so `levelsUp >= 1` whenever the walk-up branch is taken |
| TextOps.ReplaceAbsent | scraping-demo/Program.cs:308-313 | `String.Replace` of a pattern that does not occur returns the string unchanged |
| TextOps.ReplaceLength | scraping-demo/Program.cs:301 | each occurrence that `String.Replace` replaces changes the length by `|rep| - |pat|` |
| TextOps.Strip | scraping-demo/Program.cs:263 | the stripped href holds exactly the characters of the href other than tab, CR, LF and space, and is never longer |
| TextOps.StripChar | scraping-demo/Program.cs:263 | one character is dropped when it is tab, CR, LF or space, and kept otherwise |
| TextOps.StripConcat | scraping-demo/Program.cs:263 | stripping works piece by piece: `Strip(a + b) == Strip(a) + Strip(b)`; with `StripChar`, this fixes `Strip` on every string, so the kept characters keep their order and count |
| TextOps.StripIdempotent | scraping-demo/Program.cs:263 | stripping an already stripped href changes nothing |
| UrlResolver.BaseOf | scraping-demo/Program.cs:246-251 | `partsToUri` has at least one piece, no piece contains '/', and joining the pieces with '/' gives `AbsoluteUri` with every `scheme + "://"` removed |
| UrlResolver.PartsCount | scraping-demo/Program.cs:249-251 | `partsToUriCount` is never negative and is a valid index into `partsToUri` |
| UrlResolver.PartsCountRange | scraping-demo/Program.cs:249-251 | `partsToUriCount` is at least 1 when a '/' remains after removing the scheme marker |
| UrlResolver.Resolve | scraping-demo/Program.cs:262-314 | outside the absolute branch, every result ends with the stripped href less its `"../"` pieces |
| UrlResolver.Complete | scraping-demo/Program.cs:271-314 | each non-absolute branch (walk-up, `"//"`, default) ends with the cleaned href; the `"//"` and default branches, taken only when there is no `"../"`, end with the stripped href itself |
| UrlResolver.WalkUpPrefix | scraping-demo/Program.cs:292-299 | the `while (i < stopAt)` loop reads only valid indices; its result is `"/" + parts[0] + "/" + ... + parts[stopAt-1]`, or empty when `stopAt <= 0` |
| UrlResolver.PathPrefixStep | scraping-demo/Program.cs:297 | one loop iteration appends exactly `"/" + partsToUri[i]` to the prefix built so far |
| UrlResolver.CleanedLength | scraping-demo/Program.cs:288-301 | removing `"../"` shortens the stripped href by exactly `3 * levelsUp` characters |
| UrlResolver.ResolveAbsolute | scraping-demo/Program.cs:266-270 | when the stripped href starts with `scheme + "://"`, the result is the original, unstripped href |
| UrlResolver.ResolveWalkUpSingle | scraping-demo/Program.cs:282-285 | with `"../"` present and `partsToUriCount == 1`, the result is `scheme + "://" + partsToUri[0] + cleaned`, with nothing in between; `cleaned` is `3 * levelsUp` shorter than the stripped href |
| UrlResolver.ResolveWalkUp | scraping-demo/Program.cs:288-301 | otherwise, with `"../"` present: `levelsUp >= 1`, `stopAt` indexes inside `partsToUri`, the result is the walk-up prefix followed directly by the cleaned href (no scheme, no separator), and it is the cleaned href alone when `stopAt <= 0` |
| UrlResolver.WalkUpPrefixIsBasePath | scraping-demo/Program.cs:292-299 | a non-empty walk-up prefix followed by '/' is a leading part of `"/"` plus the base URI without its scheme marker, so it keeps only whole path pieces |
| UrlResolver.ResolveSchemeRelative | scraping-demo/Program.cs:305-309 | a non-absolute href without `"../"` that starts with `"//"` resolves to `scheme + ":" + stripped`; removing `"../"` there does nothing |
| UrlResolver.ResolveHostRelative | scraping-demo/Program.cs:310-314 | any other href resolves to `scheme + "://" + partsToUri[0] + stripped` |
| UrlResolver.ResolveSeesStrippedHref | scraping-demo/Program.cs:263-314 | outside the absolute branch, two hrefs that differ only in tab/CR/LF/space resolve to the same URL |
| UrlResolver.ResolveStripInvariant | scraping-demo/Program.cs:263 | outside the absolute branch, resolving the stripped href gives the same URL as resolving the raw one |
| ResolverExamples.ExampleWalkUpFromHostRoot | scraping-demo/Program.cs:279-285 | `"../" + page` on `scheme://host/` gives `scheme://host` + page, with no '/' between them |
| ResolverExamples.ExampleWalkUpTwoLevels | scraping-demo/Program.cs:288-301 | `"../../" + target` on `scheme://host/a/b/page` gives `"/" + host + target`, with no scheme |
| ResolverExamples.ExampleWalkUpToNothing | scraping-demo/Program.cs:292-301 | `"../../"` on `scheme://host/dir/` resolves to the empty string |
| ResolverExamples.ExampleMarkerRemovedEverywhere | scraping-demo/Program.cs:247 | a second `scheme://` inside the response URI (in its query, say) is removed too, so the pieces are `host` and `query + other` |
| ResolverExamples.ExampleCleanedMayKeepUpLevel | scraping-demo/Program.cs:301 | removal is a single pass, so `"....//" + page` cleans to `"../" + page`: a `"../"` can form where the text around a removed one meets |
| Tidying.Trim | scraping-demo/Program.cs:333 | the result is a slice of the input with only white space before and after it; when non-empty, it begins and ends with a non-white character; it is empty exactly when the input is all white space |
| Tidying.TrimUnique | scraping-demo/Program.cs:333 | any slice with those properties equals `Trim`'s result, so the characterisation fixes `Trim` completely |
| Tidying.Tidy | scraping-demo/Program.cs:330-336 | null or empty input gives `" "`; any other input gives a string with the trimmed input's length and no tab/CR/LF, where each tab/CR/LF became a space and every other character is kept |
| Tidying.TidyBlankIffMissing | scraping-demo/Program.cs:332-335 | the result is `" "` exactly when the input is null or empty |
| Tidying.TidyAllWhite | scraping-demo/Program.cs:332-333 | a non-empty, all-white input tidies to `""`, not `" "` |
| Tidying.TidyEnds | scraping-demo/Program.cs:333 | tidied non-empty text neither begins nor ends with white space |
| Tidying.TidyStable | scraping-demo/Program.cs:330-336 | tidying an already tidied, non-blank text changes nothing |
| Tidying.TidyExample | scraping-demo/Program.cs:333 | `"\t" + a + "\n" + b + "\r"` tidies to `a + " " + b`, as `"\tHello\nWorld\r"` tidies to `"Hello World"` |
| Scraper.NormaliseUrl | scraping-demo/Program.cs:34-39 | null or empty input stops the loop; otherwise the URL contains `http://` or `https://`, ends with the input, and equals the input when the input already contained a marker |
| Scraper.NormaliseAddsHttp | scraping-demo/Program.cs:37-39 | input without either marker becomes `"http://" + input` |
| Scraper.NormaliseIdempotent | scraping-demo/Program.cs:37-39 | normalising an already normalised URL changes nothing |
| Scraper.NormaliseKeepsMarkerAnywhere | scraping-demo/Program.cs:37-38 | a marker anywhere in the input, not only at its start, leaves the input unchanged |
| Scraper.VisitFrom | scraping-demo/Program.cs:28-75 | at most one URL per console line; nothing is fetched exactly when the first line is null or empty, and otherwise the first URL is that line, normalised |
| Scraper.VisitedUrls | scraping-demo/Program.cs:28-75 | the same for the whole console input, from the first fetch on |
| Scraper.ClassNameLineSkipped | scraping-demo/Program.cs:73-75 | after a page that reaches the class-name prompt, the next line is consumed whatever it holds, and URL reading resumes after it |
| Scraper.FailedPageReadsNextUrl | scraping-demo/Program.cs:40-94 | after a page that fails before the class-name prompt, the next line is read as a URL |
| Scraper.EmptyClassNameDoesNotStop | scraping-demo/Program.cs:31-75 | for the lines `a`, `""`, `b`, where the first page reaches the prompt, both `a` and `b` are fetched |
| Scraper.VisitedWithoutPrompt | scraping-demo/Program.cs:28-39 | when no page reaches the class-name prompt, the `i`-th URL fetched is the `i`-th line, normalised |
| Scraper.VisitedStopsAtFirstBlank | scraping-demo/Program.cs:31-35 | when no page reaches the class-name prompt, exactly the lines before the first null or empty line are fetched |
| Scraper.AnchorLine | scraping-demo/Program.cs:317-324 | each line ends with `" | "` plus the tidied inner text; before that comes the complete URL when an href is present; with no href the line is exactly `"No href present!" + " | " + TidyValue(InnerText)` |
| Scraper.FindAllTheAnchors | scraping-demo/Program.cs:242-327 | one line per anchor, in document order; when the anchor query returns null, the step fails |
| Scraper.AbsoluteHrefWrittenVerbatim | scraping-demo/Program.cs:266-269 | an anchor whose stripped href is absolute has its raw href written at the start of its line |

## Left out

- The HTML library's document loading and XPath queries (`SelectNodes`,
  `SelectSingleNode`, `InnerHtml`, `InnerText`, `OuterHtml`) are left out
  because they belong to a foreign library. The routines that only loop over
  query results are left out for the same reason: `FindHTags`,
  `GetSomeDataFromMetaTags`, `FindElementsWithClassName`,
  `PrintContentOfScriptTags`, `GetScriptTagsWithMatchingSrcAttribute`,
  `FindAnchorsWithClassText`, and the unused `FindScriptWithTextContent`.
  The anchors of a page enter `FindAllTheAnchors` as a parameter:
  `None` when the query returns null.
- HTTP fetching and the `OnPreRequest` / `OnPostResponse` hooks are left
  out: they are network configuration and header dumping.
- The .NET `Uri` computation of `ResponseUri.Scheme` and `AbsoluteUri` is
  left out. Both are plain string parameters of `Resolve`.
- Console and debug output, the prompts, and the `try`/`catch` around each
  loop iteration are left out as I/O. A failing step is a `Failure` carrying
  a placeholder message.
- Scraper.VisitedUrls: models the loop's control flow only. Whether a page
  gets as far as the class-name read at Program.cs:75 depends on the network
  and on the page, so it is the parameter `reachesClassPrompt`. The class
  name itself is only consumed, because `FindElementsWithClassName` is left
  out.
- `String.StartsWith(string)` is culture-sensitive in .NET. It is modelled
  as an ordinal prefix test (`<=` on sequences), because culture data is
  outside the model.
- `Char.IsWhiteSpace`, as used by `String.Trim`, depends on the runtime's
  Unicode version. `Tidying.IsWhiteSpace` fixes the current set of
  characters.
- C# strings are UTF-16 code units, while Dafny's `char` is a Unicode
  scalar value, so surrogate pairs are not modelled.
- C# `int` is 32 bits wide, while the model's counts and indices are
  unbounded. No string the program can hold gets near the limit.
- The regular-expression engine is left out. Its three literal patterns are
  written by hand: `"[\t\r\n ]"` as `Strip`, `"http://|https://"` as
  `HasHttpScheme`, and `"\.\./"` as `Contains` and `CountOcc`. `"../"`
  cannot overlap itself, so its regex match count and `String.Replace`'s
  occurrence count are the same number.
- UrlResolver.Resolve: its own contract states only what all non-absolute
  branches share. Each branch's exact result is stated by the
  `Resolve*` lemmas.
- UrlResolver.Complete: its own contract states only the suffixes its
  branches share. The exact result of each branch is stated for
  `Resolve`'s inputs by the `Resolve*` lemmas, and for the walk-up branch
  by `CompleteWalkUp`.
