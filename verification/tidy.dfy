/** `TidyValue`: the whitespace normaliser applied to every piece of text the
    program writes out. Missing or empty text becomes one space; any other
    text is trimmed and its tabs, carriage returns and line feeds each become
    one space. */
module Tidying {
  import opened Wrappers

  /** The characters `Char.IsWhiteSpace` accepts, which `String.Trim()`
      removes: U+0009..U+000D, U+0020, U+0085, U+00A0, U+1680,
      U+2000..U+200A, U+2028, U+2029, U+202F, U+205F and U+3000. */
  predicate IsWhiteSpace(c: char) {
    var n := c as int;
    || (0x09 <= n <= 0x0D) || n == 0x20 || n == 0x85 || n == 0xA0 || n == 0x1680
    || (0x2000 <= n <= 0x200A) || n == 0x2028 || n == 0x2029 || n == 0x202F
    || n == 0x205F || n == 0x3000
  }

  /** The characters `TidyValue` turns into spaces: tab, CR and LF. */
  predicate IsLineControl(c: char) {
    c == '\t' || c == '\r' || c == '\n'
  }

  /** `r` is `s` with white space removed from both ends, and it sits at
      offset `k` of `s`. */
  ghost predicate TrimmedAt(s: string, k: int, r: string) {
    && 0 <= k && k + |r| <= |s| && s[k..k + |r|] == r
    && (forall i :: 0 <= i < k ==> IsWhiteSpace(s[i]))
    && (forall i :: k + |r| <= i < |s| ==> IsWhiteSpace(s[i]))
    && (|r| > 0 ==> !IsWhiteSpace(r[0]) && !IsWhiteSpace(r[|r| - 1]))
  }

  /** Index of the first non-white character of `s` at or after `i`, or
      `|s|` when there is none. */
  function TextStart(s: string, i: nat): (k: nat)
    requires i <= |s|
    ensures i <= k <= |s|
    ensures forall j :: i <= j < k ==> IsWhiteSpace(s[j])
    ensures k < |s| ==> !IsWhiteSpace(s[k])
    decreases |s| - i
  {
    if i < |s| && IsWhiteSpace(s[i]) then TextStart(s, i + 1) else i
  }

  /** Index just past the last non-white character of `s` before `e`, but
      not below `lo`. */
  function TextEnd(s: string, lo: nat, e: nat): (k: nat)
    requires lo <= e <= |s|
    ensures lo <= k <= e
    ensures forall j :: k <= j < e ==> IsWhiteSpace(s[j])
    ensures k > lo ==> !IsWhiteSpace(s[k - 1])
    decreases e
  {
    if e > lo && IsWhiteSpace(s[e - 1]) then TextEnd(s, lo, e - 1) else e
  }

  /** `String.Trim()`: white space removed from both ends. */
  function Trim(s: string): (r: string)
    ensures TrimmedAt(s, TextStart(s, 0), r)
  {
    var k := TextStart(s, 0);
    s[k..TextEnd(s, k, |s|)]
  }

  /** Each tab, CR and LF replaced by one space; every other character kept. */
  function SpaceOutControls(s: string): (r: string)
    ensures |r| == |s|
    ensures forall i :: 0 <= i < |s| ==> !IsLineControl(r[i])
    ensures forall i :: 0 <= i < |s| && !IsLineControl(s[i]) ==> r[i] == s[i]
    ensures forall i :: 0 <= i < |s| && IsLineControl(s[i]) ==> r[i] == ' '
    decreases |s|
  {
    if |s| == 0 then ""
    else [if IsLineControl(s[0]) then ' ' else s[0]] + SpaceOutControls(s[1..])
  }

  /** `TidyValue(v)`; `None` stands for a null string. */
  function Tidy(v: Option<string>): (r: string)
    ensures v.None? || v == Some("") ==> r == " "
    ensures v.Some? && v.value != "" ==>
              && |r| == |Trim(v.value)|
              && (forall i :: 0 <= i < |r| ==> !IsLineControl(r[i]))
              && (forall i :: 0 <= i < |r| && !IsLineControl(Trim(v.value)[i]) ==>
                    r[i] == Trim(v.value)[i])
              && (forall i :: 0 <= i < |r| && IsLineControl(Trim(v.value)[i]) ==> r[i] == ' ')
  {
    if v.Some? && v.value != "" then SpaceOutControls(Trim(v.value)) else " "
  }

  // ---------------------------------------------------------------------
  // Trim

  /** Trimming has only one possible outcome: any slice of `s` that leaves
      nothing but white space on either side and begins and ends with a
      non-white character is `Trim(s)`. */
  lemma TrimUnique(s: string, k: int, r: string)
    requires TrimmedAt(s, k, r)
    ensures r == Trim(s)
  {
    var t := Trim(s);
    var k' := TextStart(s, 0);
    if |r| > 0 && |t| > 0 {
      assert s[k] == r[0] && s[k'] == t[0];
      assert k == k';
      assert s[k + |r| - 1] == r[|r| - 1] && s[k' + |t| - 1] == t[|t| - 1];
      assert |r| == |t|;
    }
  }

  // ---------------------------------------------------------------------
  // Tidy

  /** The single space comes out exactly when the text is null or empty: a
      non-empty text never tidies to " ". */
  lemma TidyBlankIffMissing(v: Option<string>)
    ensures Tidy(v) == " " <==> v.None? || v == Some("")
  {
  }

  /** A non-empty text made only of white space tidies to the empty string,
      not to a single space. */
  lemma TidyAllWhite(s: string)
    requires s != ""
    requires forall i :: 0 <= i < |s| ==> IsWhiteSpace(s[i])
    ensures Tidy(Some(s)) == ""
  {
    var t := Trim(s);
  }

  /** Tidied text neither begins nor ends with white space. */
  lemma TidyEnds(v: Option<string>)
    requires v.Some? && v.value != ""
    ensures var r := Tidy(v); |r| > 0 ==> !IsWhiteSpace(r[0]) && !IsWhiteSpace(r[|r| - 1])
  {
  }

  /** Tidying what `TidyValue` produced from a non-blank text changes nothing. */
  lemma TidyStable(v: Option<string>)
    requires v.Some? && v.value != "" && Tidy(v) != ""
    ensures Tidy(Some(Tidy(v))) == Tidy(v)
  {
    var r := Tidy(v);
    TidyEnds(v);
    assert TrimmedAt(r, 0, r);
    TrimUnique(r, 0, r);
    assert SpaceOutControls(r) == r;
  }

  /** Spacing out the one LF between two texts without white space. */
  lemma SpacedOutJoin(a: string, b: string, t: string, r: string)
    requires forall i :: 0 <= i < |a| ==> !IsWhiteSpace(a[i])
    requires forall i :: 0 <= i < |b| ==> !IsWhiteSpace(b[i])
    requires t == a + "\n" + b && |r| == |t|
    requires forall i :: 0 <= i < |r| && !IsLineControl(t[i]) ==> r[i] == t[i]
    requires forall i :: 0 <= i < |r| && IsLineControl(t[i]) ==> r[i] == ' '
    ensures r == a + " " + b
  {
    var want := a + " " + b;
    forall i | 0 <= i < |r|
      ensures r[i] == want[i]
    {
      if i < |a| {
        assert t[i] == a[i] && want[i] == a[i];
        assert !IsWhiteSpace(a[i]);
      } else if i == |a| {
        assert t[i] == '\n' && want[i] == ' ';
      } else {
        assert t[i] == b[i - |a| - 1] && want[i] == b[i - |a| - 1];
        assert !IsWhiteSpace(b[i - |a| - 1]);
      }
    }
  }

  /** Interior tabs, CRs and LFs become single spaces; leading and trailing
      ones are trimmed away: "\tHello\nWorld\r" tidies to "Hello World". */
  lemma TidyExample(a: string, b: string)
    requires |a| > 0 && |b| > 0
    requires forall i :: 0 <= i < |a| ==> !IsWhiteSpace(a[i])
    requires forall i :: 0 <= i < |b| ==> !IsWhiteSpace(b[i])
    ensures Tidy(Some("\t" + a + "\n" + b + "\r")) == a + " " + b
  {
    var s := "\t" + a + "\n" + b + "\r";
    var mid := a + "\n" + b;
    assert s == "\t" + mid + "\r";
    assert s[1..1 + |mid|] == mid;
    assert mid[0] == a[0] && mid[|mid| - 1] == b[|b| - 1];
    assert TrimmedAt(s, 1, mid);
    TrimUnique(s, 1, mid);
    SpacedOutJoin(a, b, mid, Tidy(Some(s)));
  }
}
