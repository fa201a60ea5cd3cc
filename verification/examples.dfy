/** Worked examples of the resolver, each fixing one edge of its behaviour.
    They are stated for every host, folder and page name of the given shape
    rather than for one literal URL. */
module ResolverExamples {
  import opened TextOps
  import opened UrlResolver

  /** No tab, CR, LF or space anywhere in `s`. */
  predicate NoHrefWhite(s: string) {
    forall i :: 0 <= i < |s| ==> !IsHrefWhite(s[i])
  }

  // ---------------------------------------------------------------------
  // Building blocks

  /** A URI with one leading "scheme://" and no other ':' loses just that marker. */
  lemma MarkerRemoved(scheme: string, rest: string)
    requires ':' !in rest
    ensures Replace(SchemeMarker(scheme) + rest, SchemeMarker(scheme), "") == rest
  {
    var m := SchemeMarker(scheme);
    ReplaceAtFront(m, rest, "");
    assert m[|scheme|] == ':';
    NotContainsByChar(rest, m, |scheme|);
    ReplaceAbsent(rest, m, "");
  }

  /** An href beginning with "../" is never taken for an absolute one when
      the scheme holds no '.'. */
  lemma UpLevelNotAbsolute(scheme: string, rest: string)
    requires '.' !in scheme
    ensures !(SchemeMarker(scheme) <= UpLevel + rest)
  {
    var m := SchemeMarker(scheme);
    assert (UpLevel + rest)[0] == '.';
    if |scheme| > 0 {
      assert m[0] == scheme[0];
    } else {
      assert m[0] == ':';
    }
  }

  /** "../" followed by text without a '/' counts once and cleans to that text. */
  lemma OneUpLevel(rest: string)
    requires '/' !in rest
    ensures CountOcc(UpLevel + rest, UpLevel) == 1
    ensures Replace(UpLevel + rest, UpLevel, "") == rest
    ensures Contains(UpLevel + rest, UpLevel)
  {
    var raw := UpLevel + rest;
    assert raw[3..] == rest;
    assert OccursAt(raw, UpLevel, 0);
    NotContainsByChar(rest, UpLevel, 2);
    ReplaceAbsent(rest, UpLevel, "");
    CountOccPositive(rest, UpLevel);
  }

  /** "../../" followed by text without a '/' counts twice and cleans to that text. */
  lemma TwoUpLevels(rest: string)
    requires '/' !in rest
    ensures CountOcc(UpLevel + UpLevel + rest, UpLevel) == 2
    ensures Replace(UpLevel + UpLevel + rest, UpLevel, "") == rest
    ensures Contains(UpLevel + UpLevel + rest, UpLevel)
  {
    var raw := UpLevel + UpLevel + rest;
    assert raw[3..] == UpLevel + rest;
    assert OccursAt(raw, UpLevel, 0);
    OneUpLevel(rest);
  }

  /** "host/a/b/page" splits into its four pieces. */
  lemma FourPieces(host: string, a: string, b: string, page: string)
    requires '/' !in host && '/' !in a && '/' !in b && '/' !in page
    ensures Split(host + "/" + (a + "/" + (b + "/" + page)), '/') == [host, a, b, page]
  {
    SplitNoSep(page, '/');
    SplitAtSep(b, page, '/');
    SplitAtSep(a, b + "/" + page, '/');
    SplitAtSep(host, a + "/" + (b + "/" + page), '/');
  }

  /** "host/dir/" splits into host, dir and the empty piece after the last '/'. */
  lemma FolderPieces(host: string, dir: string)
    requires '/' !in host && '/' !in dir
    ensures Split(host + "/" + (dir + "/"), '/') == [host, dir, ""]
  {
    SplitAtSep(dir, "", '/');
    assert dir + ['/'] + "" == dir + "/";
    SplitAtSep(host, dir + "/", '/');
  }

  // ---------------------------------------------------------------------
  // The examples

  /** Walking up from a page at the host's root drops the "../" and glues
      what is left straight onto the host: no '/' is put back in between, so
      "../product.html" on "http://example.com/" gives
      "http://example.comproduct.html". */
  lemma ExampleWalkUpFromHostRoot(scheme: string, host: string, page: string)
    requires '.' !in scheme
    requires ':' !in host && '/' !in host
    requires '/' !in page && NoHrefWhite(page)
    ensures Resolve(scheme, SchemeMarker(scheme) + host + "/", UpLevel + page) ==
              SchemeMarker(scheme) + host + page
  {
    var uri := SchemeMarker(scheme) + host + "/";
    var href := UpLevel + page;
    assert uri == SchemeMarker(scheme) + (host + "/");
    MarkerRemoved(scheme, host + "/");
    SplitAtSep(host, "", '/');
    assert host + ['/'] + "" == host + "/";
    assert BaseOf(scheme, uri).parts == [host, ""];
    assert NoHrefWhite(href);
    StripClean(href);
    UpLevelNotAbsolute(scheme, page);
    OneUpLevel(page);
    ResolveWalkUpSingle(scheme, uri, href);
  }

  /** "scheme://host/a/b/page" gives the four pieces host, a, b and page. */
  lemma DeepPageParts(scheme: string, host: string, a: string, b: string, page: string)
    requires ':' !in host && ':' !in a && ':' !in b && ':' !in page
    requires '/' !in host && '/' !in a && '/' !in b && '/' !in page
    ensures BaseOf(scheme, SchemeMarker(scheme) + host + "/" + a + "/" + b + "/" + page).parts
            == [host, a, b, page]
  {
    var path := host + "/" + (a + "/" + (b + "/" + page));
    assert SchemeMarker(scheme) + host + "/" + a + "/" + b + "/" + page
           == SchemeMarker(scheme) + path;
    assert ':' !in path;
    MarkerRemoved(scheme, path);
    FourPieces(host, a, b, page);
  }

  /** Two levels up from "scheme://host/a/b/page" keeps only the host piece,
      written with a leading '/' and no scheme, and again with nothing
      between it and the cleaned href. */
  lemma ExampleWalkUpTwoLevels(scheme: string, host: string, a: string, b: string,
                               page: string, target: string)
    requires '.' !in scheme
    requires ':' !in host && ':' !in a && ':' !in b && ':' !in page
    requires '/' !in host && '/' !in a && '/' !in b && '/' !in page
    requires '/' !in target && NoHrefWhite(target)
    ensures Resolve(scheme, SchemeMarker(scheme) + host + "/" + a + "/" + b + "/" + page,
                    UpLevel + UpLevel + target) ==
              "/" + host + target
  {
    var uri := SchemeMarker(scheme) + host + "/" + a + "/" + b + "/" + page;
    DeepPageParts(scheme, host, a, b, page);
    var base := BaseOf(scheme, uri);
    var href := UpLevel + UpLevel + target;
    TwoUpHref(scheme, target);
    ResolveWalkUp(scheme, uri, href);
    assert base.parts[..1] == [host];
  }

  /** What the resolver sees of "../../" + target: it is already stripped,
      not absolute, and holds two "../" that clean away to target. */
  lemma TwoUpHref(scheme: string, target: string)
    requires '.' !in scheme
    requires '/' !in target && NoHrefWhite(target)
    ensures var href := UpLevel + UpLevel + target;
            && Strip(href) == href
            && !(SchemeMarker(scheme) <= href)
            && Contains(href, UpLevel)
            && CountOcc(href, UpLevel) == 2
            && Replace(href, UpLevel, "") == target
  {
    var href := UpLevel + UpLevel + target;
    assert NoHrefWhite(href);
    StripClean(href);
    assert href == UpLevel + (UpLevel + target);
    UpLevelNotAbsolute(scheme, UpLevel + target);
    TwoUpLevels(target);
  }

  /** More "../" than pieces to drop leaves an empty prefix: "../../" on a
      folder page "scheme://host/dir/" resolves to the empty string. */
  lemma ExampleWalkUpToNothing(scheme: string, host: string, dir: string)
    requires '.' !in scheme
    requires ':' !in host && '/' !in host && ':' !in dir && '/' !in dir
    ensures Resolve(scheme, SchemeMarker(scheme) + host + "/" + dir + "/", UpLevel + UpLevel) == ""
  {
    var path := host + "/" + (dir + "/");
    var uri := SchemeMarker(scheme) + host + "/" + dir + "/";
    assert uri == SchemeMarker(scheme) + path;
    assert ':' !in path;
    MarkerRemoved(scheme, path);
    FolderPieces(host, dir);
    assert BaseOf(scheme, uri).parts == [host, dir, ""];
    var href := UpLevel + UpLevel;
    assert href == UpLevel + UpLevel + "";
    assert NoHrefWhite(href);
    StripClean(href);
    UpLevelNotAbsolute(scheme, UpLevel);
    TwoUpLevels("");
    ResolveWalkUp(scheme, uri, href);
  }

  /** No "scheme://" starts inside `p` when neither `p` nor `other` holds a
      ':' and the scheme has none either. */
  lemma NoMarkerBefore(scheme: string, p: string, other: string)
    requires ':' !in scheme && ':' !in p && ':' !in other
    ensures forall i :: 0 <= i < |p| ==>
              !OccursAt(p + (SchemeMarker(scheme) + other), SchemeMarker(scheme), i)
  {
    var m := SchemeMarker(scheme);
    var t := m + other;
    forall i | 0 <= i < |p|
      ensures !OccursAt(p + t, m, i)
    {
      assert m[|scheme|] == ':';
    }
  }

  /** A second marker after a ':'-free stretch is removed as well. */
  lemma MarkerRemovedTwice(scheme: string, p: string, other: string)
    requires ':' !in scheme && ':' !in p && ':' !in other
    ensures Replace(SchemeMarker(scheme) + (p + (SchemeMarker(scheme) + other)),
                    SchemeMarker(scheme), "") == p + other
  {
    var m := SchemeMarker(scheme);
    var t := m + other;
    ReplaceAtFront(m, p + t, "");
    NoMarkerBefore(scheme, p, other);
    ReplaceSkipFree(p, t, m, "");
    MarkerRemoved(scheme, other);
  }

  /** Every "scheme://" in the response URI is removed, not only the leading
      one: a URI that carries another URI in its query loses that marker too. */
  lemma ExampleMarkerRemovedEverywhere(scheme: string, host: string, query: string, other: string)
    requires ':' !in scheme && ':' !in host && ':' !in query && ':' !in other
    requires '/' !in host && '/' !in query && '/' !in other
    ensures BaseOf(scheme, SchemeMarker(scheme) + host + "/" + query + SchemeMarker(scheme) + other).parts
            == [host, query + other]
  {
    var m := SchemeMarker(scheme);
    var p := host + "/" + query;
    NestedUri(m, host, query, other);
    assert ':' !in p;
    MarkerRemovedTwice(scheme, p, other);
    HostAndRest(host, query, other);
  }

  /** Regrouping the parts of a URI that carries a second marker. */
  lemma NestedUri(m: string, host: string, query: string, other: string)
    ensures m + host + "/" + query + m + other == m + ((host + "/" + query) + (m + other))
  {
  }

  /** "host/" + query + other splits into host and query + other. */
  lemma HostAndRest(host: string, query: string, other: string)
    requires '/' !in host && '/' !in query && '/' !in other
    ensures Split((host + "/" + query) + other, '/') == [host, query + other]
  {
    SplitNoSep(query + other, '/');
    SplitAtSep(host, query + other, '/');
    assert host + ['/'] + (query + other) == (host + "/" + query) + other;
  }

  /** Removal is one pass: "../" can reappear where the text around a
      removed one meets, so "....//" + page cleans to "../" + page. */
  lemma ExampleCleanedMayKeepUpLevel(page: string)
    requires '/' !in page && NoHrefWhite(page)
    ensures Cleaned(".." + UpLevel + "/" + page) == UpLevel + page
  {
    FoldedHrefClean(page);
    FoldedHrefReplaced(page);
  }

  /** The folded href holds no whitespace when the page name holds none. */
  lemma FoldedHrefClean(page: string)
    requires NoHrefWhite(page)
    ensures Strip(".." + UpLevel + "/" + page) == ".." + UpLevel + "/" + page
  {
    var lit := ".." + UpLevel + "/";
    var raw := lit + page;
    forall i | 0 <= i < |raw|
      ensures !IsHrefWhite(raw[i])
    {
      if i < 6 {
        assert raw[i] == lit[i];
        assert lit[i] == '.' || lit[i] == '/';
      } else {
        assert raw[i] == page[i - 6];
      }
    }
    StripClean(raw);
  }

  /** The one pass over the folded href leaves exactly "../" + page. */
  lemma FoldedHrefReplaced(page: string)
    requires '/' !in page
    ensures Replace(".." + UpLevel + "/" + page, UpLevel, "") == UpLevel + page
  {
    var t := UpLevel + ("/" + page);
    assert ".." + UpLevel + "/" + page == ".." + t;
    DotsSkipped(t);
    UpLevelThenSlash(page);
    assert ".." + ("/" + page) == UpLevel + page;
  }

  /** No "../" starts within a leading ".." that is followed by "../". */
  lemma DotsSkipped(t: string)
    requires UpLevel <= t
    ensures Replace(".." + t, UpLevel, "") == ".." + Replace(t, UpLevel, "")
  {
    var u := ".." + t;
    assert t[0] == UpLevel[0] && t[1] == UpLevel[1];
    assert u[2] == t[0] && u[3] == t[1];
    assert u[0..3] != UpLevel by { assert u[0..3][2] == u[2]; }
    assert u[1..4] != UpLevel by { assert u[1..4][2] == u[3]; }
    forall i | 0 <= i < 2
      ensures !OccursAt(u, UpLevel, i)
    {
    }
    ReplaceSkipFree("..", t, UpLevel, "");
  }

  /** "../" followed by "/" + page cleans to "/" + page. */
  lemma UpLevelThenSlash(page: string)
    requires '/' !in page
    ensures Replace(UpLevel + ("/" + page), UpLevel, "") == "/" + page
  {
    ReplaceAtFront(UpLevel, "/" + page, "");
    assert !OccursAt("/" + page, UpLevel, 0) by {
      assert ("/" + page)[0] == '/';
    }
    ReplaceSkipFree("/", page, UpLevel, "");
    NotContainsByChar(page, UpLevel, 2);
    ReplaceAbsent(page, UpLevel, "");
  }
}
