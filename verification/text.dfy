/** The string primitives the resolver is built from, written out by hand:
    ordinal substring search, .NET `String.Replace` (one left-to-right pass
    over non-overlapping occurrences), the occurrence count a literal regular
    expression's `Matches` reports, `String.Split` on one character, and the
    whitespace-stripping `Regex.Replace(href, "[\t\r\n ]", "")`. */
module TextOps {

  /** `pat` occurs in `s` starting at index `i`. */
  predicate OccursAt(s: string, pat: string, i: int) {
    0 <= i && i + |pat| <= |s| && s[i..i + |pat|] == pat
  }

  /** Ordinal substring test; it is also what `IsMatch` of a regular
      expression consisting of one literal answers. */
  predicate Contains(s: string, pat: string) {
    exists i | 0 <= i <= |s| - |pat| :: OccursAt(s, pat, i)
  }

  /** Number of occurrences found by a left-to-right scan that resumes after
      each match, as `Regex.Matches(s, literal).Count` reports. */
  function CountOcc(s: string, pat: string): (n: nat)
    requires |pat| > 0
    ensures n * |pat| <= |s|
    decreases |s|
  {
    if |s| == 0 then 0
    else if pat <= s then 1 + CountOcc(s[|pat|..], pat)
    else CountOcc(s[1..], pat)
  }

  /** .NET `s.Replace(pat, rep)`: every occurrence found by one left-to-right
      pass is replaced; the replacement text is never rescanned. */
  function Replace(s: string, pat: string, rep: string): (r: string)
    requires |pat| > 0
    ensures |rep| <= |pat| ==> |r| <= |s|
    decreases |s|
  {
    if |s| == 0 then ""
    else if pat <= s then rep + Replace(s[|pat|..], pat, rep)
    else [s[0]] + Replace(s[1..], pat, rep)
  }

  /** .NET `s.Split(sep)`: the pieces between separators, empty ones kept. */
  function Split(s: string, sep: char): (parts: seq<string>)
    ensures |parts| >= 1
    ensures forall i :: 0 <= i < |parts| ==> sep !in parts[i]
    decreases |s|
  {
    if |s| == 0 then [""]
    else
      var rest := Split(s[1..], sep);
      if s[0] == sep then [""] + rest
      else [[s[0]] + rest[0]] + rest[1..]
  }

  /** The pieces glued back together with `sep` between neighbours. */
  function Join(parts: seq<string>, sep: char): (r: string)
    decreases |parts|
  {
    if |parts| == 0 then ""
    else if |parts| == 1 then parts[0]
    else parts[0] + [sep] + Join(parts[1..], sep)
  }

  /** The characters removed from an href before it is classified. */
  predicate IsHrefWhite(c: char) {
    c == '\t' || c == '\r' || c == '\n' || c == ' '
  }

  /** `Regex.Replace(s, "[\t\r\n ]", "")`. */
  function Strip(s: string): (r: string)
    ensures |r| <= |s|
    ensures forall c :: c in r <==> c in s && !IsHrefWhite(c)
    decreases |s|
  {
    if |s| == 0 then ""
    else if IsHrefWhite(s[0]) then Strip(s[1..])
    else [s[0]] + Strip(s[1..])
  }

  // ---------------------------------------------------------------------
  // Substring search

  /** One step of the scan: an occurrence is either at the front or further on. */
  lemma ContainsStep(s: string, pat: string)
    requires |s| > 0 && |pat| > 0
    ensures Contains(s, pat) <==> pat <= s || Contains(s[1..], pat)
  {
    if Contains(s, pat) {
      var i :| 0 <= i <= |s| - |pat| && OccursAt(s, pat, i);
      if i > 0 {
        assert s[1..][i - 1..i - 1 + |pat|] == s[i..i + |pat|];
        assert OccursAt(s[1..], pat, i - 1);
      }
    }
    if pat <= s {
      assert OccursAt(s, pat, 0);
    } else if Contains(s[1..], pat) {
      var j :| 0 <= j <= |s[1..]| - |pat| && OccursAt(s[1..], pat, j);
      assert s[1..][j..j + |pat|] == s[j + 1..j + 1 + |pat|];
      assert OccursAt(s, pat, j + 1);
    }
  }

  /** The scan counts at least one occurrence exactly when the pattern occurs:
      `IsMatch` and `Matches(..).Count > 0` agree. */
  lemma {:induction false} CountOccPositive(s: string, pat: string)
    requires |pat| > 0
    ensures CountOcc(s, pat) > 0 <==> Contains(s, pat)
    decreases |s|
  {
    if |s| == 0 {
      assert !Contains(s, pat);
    } else if pat <= s {
      assert OccursAt(s, pat, 0);
    } else {
      ContainsStep(s, pat);
      CountOccPositive(s[1..], pat);
    }
  }

  /** A string in which some character of the pattern never appears cannot
      contain the pattern. */
  lemma NotContainsByChar(s: string, pat: string, k: nat)
    requires k < |pat| && pat[k] !in s
    ensures !Contains(s, pat)
  {
  }

  // ---------------------------------------------------------------------
  // Replace

  /** Replacing a pattern that does not occur leaves the string unchanged. */
  lemma {:induction false} ReplaceAbsent(s: string, pat: string, rep: string)
    requires |pat| > 0 && !Contains(s, pat)
    ensures Replace(s, pat, rep) == s
    decreases |s|
  {
    if |s| > 0 {
      ContainsStep(s, pat);
      ReplaceAbsent(s[1..], pat, rep);
      assert [s[0]] + s[1..] == s;
    }
  }

  /** An occurrence at the front is replaced and the scan resumes after it. */
  lemma ReplaceAtFront(pat: string, x: string, rep: string)
    requires |pat| > 0
    ensures Replace(pat + x, pat, rep) == rep + Replace(x, pat, rep)
  {
    assert pat <= pat + x;
    assert (pat + x)[|pat|..] == x;
  }

  /** A leading part at which no occurrence starts is copied unchanged. */
  lemma {:induction false} ReplaceSkipFree(p: string, t: string, pat: string, rep: string)
    requires |pat| > 0
    requires forall i :: 0 <= i < |p| ==> !OccursAt(p + t, pat, i)
    ensures Replace(p + t, pat, rep) == p + Replace(t, pat, rep)
    decreases |p|
  {
    if |p| == 0 {
      assert p + t == t;
    } else {
      var q := p + t;
      assert !OccursAt(q, pat, 0);
      assert q[0] == p[0];
      assert q[1..] == p[1..] + t;
      forall i | 0 <= i < |p| - 1
        ensures !OccursAt(q[1..], pat, i)
      {
        assert !OccursAt(q, pat, i + 1);
        if i + |pat| <= |q| - 1 {
          assert q[1..][i..i + |pat|] == q[i + 1..i + 1 + |pat|];
        }
      }
      ReplaceSkipFree(p[1..], t, pat, rep);
      assert [p[0]] + (p[1..] + Replace(t, pat, rep)) == p + Replace(t, pat, rep);
    }
  }

  /** Multiplication distributes over one more occurrence. */
  lemma MulStep(d: int, c: nat)
    ensures d * (c + 1) == d * c + d
  {
  }

  /** Each occurrence replaced changes the length by `|rep| - |pat|`. */
  lemma {:induction false} ReplaceLength(s: string, pat: string, rep: string)
    requires |pat| > 0
    ensures |Replace(s, pat, rep)| == |s| + (|rep| - |pat|) * CountOcc(s, pat)
    decreases |s|
  {
    if |s| > 0 {
      var d := |rep| - |pat|;
      if pat <= s {
        var t := s[|pat|..];
        ReplaceLength(t, pat, rep);
        var c := CountOcc(t, pat);
        assert Replace(s, pat, rep) == rep + Replace(t, pat, rep);
        assert CountOcc(s, pat) == c + 1;
        assert |s| == |pat| + |t|;
        MulStep(d, c);
      } else {
        ReplaceLength(s[1..], pat, rep);
      }
    }
  }

  // ---------------------------------------------------------------------
  // Split and Join

  /** Joining two non-empty lists puts one separator between their joins. */
  lemma {:induction false} JoinAppend(a: seq<string>, b: seq<string>, sep: char)
    requires |a| >= 1 && |b| >= 1
    ensures Join(a + b, sep) == Join(a, sep) + [sep] + Join(b, sep)
    decreases |a|
  {
    if |a| == 1 {
      assert (a + b)[1..] == b;
    } else {
      assert (a + b)[1..] == a[1..] + b;
      JoinAppend(a[1..], b, sep);
    }
  }

  /** Gluing the pieces back together gives the original string. */
  lemma {:induction false} SplitJoin(s: string, sep: char)
    ensures Join(Split(s, sep), sep) == s
    decreases |s|
  {
    if |s| > 0 {
      SplitJoin(s[1..], sep);
      var rest := Split(s[1..], sep);
      if s[0] == sep {
        assert ([""] + rest)[1..] == rest;
      } else if |rest| > 1 {
        assert ([[s[0]] + rest[0]] + rest[1..])[1..] == rest[1..];
      }
      assert [s[0]] + s[1..] == s;
    }
  }

  /** Splitting a string whose first piece `p` holds no separator yields `p`
      glued to the first piece of the rest. */
  lemma {:induction false} SplitFreePrefix(p: string, t: string, sep: char)
    requires sep !in p
    ensures Split(p + t, sep) == [p + Split(t, sep)[0]] + Split(t, sep)[1..]
    decreases |p|
  {
    if |p| == 0 {
      var st := Split(t, sep);
      assert p + t == t && p + st[0] == st[0];
      assert [st[0]] + st[1..] == st;
    } else {
      assert (p + t)[0] == p[0] && p[0] != sep;
      assert (p + t)[1..] == p[1..] + t;
      assert sep !in p[1..];
      SplitFreePrefix(p[1..], t, sep);
      assert [p[0]] + (p[1..] + Split(t, sep)[0]) == p + Split(t, sep)[0];
    }
  }

  /** A separator-free piece followed by a separator is split off whole. */
  lemma SplitAtSep(p: string, t: string, sep: char)
    requires sep !in p
    ensures Split(p + [sep] + t, sep) == [p] + Split(t, sep)
  {
    assert p + [sep] + t == p + ([sep] + t);
    SplitFreePrefix(p, [sep] + t, sep);
    assert ([sep] + t)[0] == sep && ([sep] + t)[1..] == t;
    var st := Split([sep] + t, sep);
    assert st == [""] + Split(t, sep);
    assert p + st[0] == p && st[1..] == Split(t, sep);
  }

  /** A string without the separator is a single piece. */
  lemma SplitNoSep(p: string, sep: char)
    requires sep !in p
    ensures Split(p, sep) == [p]
  {
    SplitFreePrefix(p, "", sep);
    assert p + "" == p;
  }

  /** Splitting the join of separator-free pieces gives the pieces back. */
  lemma {:induction false} JoinSplit(parts: seq<string>, sep: char)
    requires |parts| >= 1
    requires forall i :: 0 <= i < |parts| ==> sep !in parts[i]
    ensures Split(Join(parts, sep), sep) == parts
    decreases |parts|
  {
    if |parts| == 1 {
      SplitFreePrefix(parts[0], "", sep);
      assert parts[0] + "" == parts[0];
    } else {
      var j := Join(parts[1..], sep);
      JoinSplit(parts[1..], sep);
      assert Split(j, sep) == parts[1..];
      assert Join(parts, sep) == parts[0] + ([sep] + j);
      SplitFreePrefix(parts[0], [sep] + j, sep);
      var sj := Split([sep] + j, sep);
      assert ([sep] + j)[0] == sep && ([sep] + j)[1..] == j;
      assert sj == [""] + parts[1..];
      assert sj[0] == "" && sj[1..] == parts[1..];
      assert parts[0] + "" == parts[0];
      assert parts == [parts[0]] + parts[1..];
    }
  }

  /** The join of the first `k` pieces, followed by a separator, begins the
      join of all of them. */
  lemma JoinPrefix(parts: seq<string>, k: nat, sep: char)
    requires 1 <= k < |parts|
    ensures Join(parts[..k], sep) + [sep] <= Join(parts, sep)
  {
    JoinAppend(parts[..k], parts[k..], sep);
    assert parts[..k] + parts[k..] == parts;
  }

  // ---------------------------------------------------------------------
  // Strip

  /** Stripping works piecewise. */
  lemma {:induction false} StripConcat(a: string, b: string)
    ensures Strip(a + b) == Strip(a) + Strip(b)
    decreases |a|
  {
    if |a| == 0 {
      assert a + b == b;
    } else {
      assert (a + b)[0] == a[0];
      assert (a + b)[1..] == a[1..] + b;
      StripConcat(a[1..], b);
    }
  }

  /** One character is dropped when it is whitespace and kept otherwise;
      with `StripConcat` this fixes `Strip` on every string. */
  lemma StripChar(c: char)
    ensures Strip([c]) == if IsHrefWhite(c) then "" else [c]
  {
    assert [c][1..] == "";
  }

  /** A string without tab, CR, LF or space is left exactly as it is. */
  lemma {:induction false} StripClean(s: string)
    requires forall i :: 0 <= i < |s| ==> !IsHrefWhite(s[i])
    ensures Strip(s) == s
    decreases |s|
  {
    if |s| > 0 {
      StripClean(s[1..]);
      assert [s[0]] + s[1..] == s;
    }
  }

  /** Stripping twice is stripping once. */
  lemma StripIdempotent(s: string)
    ensures Strip(Strip(s)) == Strip(s)
  {
    var r := Strip(s);
    forall i | 0 <= i < |r|
      ensures !IsHrefWhite(r[i])
    {
      assert r[i] in r;
    }
    StripClean(r);
  }
}
