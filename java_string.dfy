/**
 * The parts of `java.lang.String` that the condition relies on: `trim`,
 * `equalsIgnoreCase` (over an ASCII case fold) and `contains`, plus the
 * rendering of a possibly-null string in a concatenation.
 */
module JavaString {
  import opened Wrappers

  // ---------------------------------------------------------------------------
  // trim
  // ---------------------------------------------------------------------------

  /** `String.trim` drops characters whose code is at most U+0020. */
  predicate IsTrimmable(c: char) {
    c <= ' '
  }

  ghost predicate AllTrimmable(s: string) {
    forall i :: 0 <= i < |s| ==> IsTrimmable(s[i])
  }

  /** Neither the first nor the last character of `s` is trimmable. */
  ghost predicate NoOuterTrimmable(s: string) {
    s == [] || (!IsTrimmable(s[0]) && !IsTrimmable(s[|s| - 1]))
  }

  /** Number of characters `trim` skips at the front (its first loop). */
  function LeadingCount(s: string): (n: nat)
    ensures n <= |s|
    ensures forall i :: 0 <= i < n ==> IsTrimmable(s[i])
    ensures n < |s| ==> !IsTrimmable(s[n])
  {
    if |s| > 0 && IsTrimmable(s[0]) then 1 + LeadingCount(s[1..]) else 0
  }

  /** Number of characters `trim` skips at the back (its second loop). */
  function TrailingCount(s: string): (n: nat)
    ensures n <= |s|
    ensures forall i :: |s| - n <= i < |s| ==> IsTrimmable(s[i])
    ensures n < |s| ==> !IsTrimmable(s[|s| - 1 - n])
  {
    if |s| > 0 && IsTrimmable(s[|s| - 1]) then 1 + TrailingCount(s[..|s| - 1]) else 0
  }

  /**
   * `String.trim`: the leading characters up to U+0020 are skipped first,
   * then the trailing ones of what is left.
   */
  function Trim(s: string): (r: string)
    ensures |r| <= |s|
    ensures NoOuterTrimmable(r)
  {
    var st := LeadingCount(s);
    var rest := s[st..];
    rest[..|rest| - TrailingCount(rest)]
  }

  /**
   * Reference definition of trimming: `r` is the infix of `s` that is left
   * once a run of trimmable characters is removed at each end and that
   * itself starts and ends with a character above U+0020.
   */
  ghost predicate IsTrimmingOf(r: string, s: string) {
    exists i, j :: 0 <= i <= j <= |s| && r == s[i..j]
                   && AllTrimmable(s[..i]) && AllTrimmable(s[j..]) && NoOuterTrimmable(r)
  }

  /** `Trim` meets the reference definition: it cuts a contiguous infix out of `s`. */
  lemma TrimIsTrimming(s: string)
    ensures IsTrimmingOf(Trim(s), s)
  {
    var st := LeadingCount(s);
    var rest := s[st..];
    var t := TrailingCount(rest);
    var en := st + |rest| - t;
    assert Trim(s) == s[st..en];
    assert AllTrimmable(s[..st]) by {
      assert forall k :: 0 <= k < st ==> s[..st][k] == s[k];
    }
    assert AllTrimmable(s[en..]) by {
      assert forall k :: 0 <= k < |s| - en ==> s[en..][k] == rest[|rest| - t + k];
    }
  }

  /** The front count is the only index with trimmable characters before it and a kept one at it. */
  lemma LeadingCountUnique(s: string, n: nat)
    requires n <= |s|
    requires forall k :: 0 <= k < n ==> IsTrimmable(s[k])
    requires n < |s| ==> !IsTrimmable(s[n])
    ensures LeadingCount(s) == n
  {
  }

  /** The back count is the only count with trimmable characters after the cut and a kept one before it. */
  lemma TrailingCountUnique(s: string, n: nat)
    requires n <= |s|
    requires forall k :: |s| - n <= k < |s| ==> IsTrimmable(s[k])
    requires n < |s| ==> !IsTrimmable(s[|s| - 1 - n])
    ensures TrailingCount(s) == n
  {
  }

  /** Cutting a trimmable run off each end, keeping a non-empty infix that starts and ends kept, is `Trim`. */
  lemma TrimByBounds(s: string, i: nat, j: nat)
    requires i < j <= |s|
    requires forall k :: 0 <= k < i ==> IsTrimmable(s[k])
    requires forall k :: j <= k < |s| ==> IsTrimmable(s[k])
    requires !IsTrimmable(s[i]) && !IsTrimmable(s[j - 1])
    ensures Trim(s) == s[i..j]
  {
    LeadingCountUnique(s, i);
    var rest := s[i..];
    TrailingCountUnique(rest, |s| - j);
  }

  /** The reference definition admits one string only, so it pins `Trim` down. */
  lemma TrimUnique(r: string, s: string)
    requires IsTrimmingOf(r, s)
    ensures r == Trim(s)
  {
    var i, j :| 0 <= i <= j <= |s| && r == s[i..j]
                && AllTrimmable(s[..i]) && AllTrimmable(s[j..]) && NoOuterTrimmable(r);
    TrimmableOutside(s, i, j);
    if i == j {
      LeadingCountUnique(s, |s|);
    } else {
      TrimByBounds(s, i, j);
    }
  }

  lemma TrimmableOutside(s: string, i: nat, j: nat)
    requires i <= j <= |s|
    requires AllTrimmable(s[..i]) && AllTrimmable(s[j..])
    ensures forall k :: 0 <= k < i ==> IsTrimmable(s[k])
    ensures forall k :: j <= k < |s| ==> IsTrimmable(s[k])
  {
    forall k | j <= k < |s| ensures IsTrimmable(s[k]) {
      assert s[k] == s[j..][k - j];
    }
  }

  /** Padding a string with characters up to U+0020 on either side does not change its trimmed form. */
  lemma TrimPadded(lead: string, s: string, trail: string)
    requires AllTrimmable(lead) && AllTrimmable(trail)
    ensures Trim(lead + s + trail) == Trim(s)
  {
    TrimIsTrimming(s);
    var r := Trim(s);
    var i, j :| 0 <= i <= j <= |s| && r == s[i..j]
                && AllTrimmable(s[..i]) && AllTrimmable(s[j..]) && NoOuterTrimmable(r);
    PaddedIsTrimming(lead, s, trail, i, j);
    TrimUnique(r, lead + s + trail);
  }

  lemma PaddedIsTrimming(lead: string, s: string, trail: string, i: nat, j: nat)
    requires AllTrimmable(lead) && AllTrimmable(trail)
    requires i <= j <= |s| && AllTrimmable(s[..i]) && AllTrimmable(s[j..]) && NoOuterTrimmable(s[i..j])
    ensures IsTrimmingOf(s[i..j], lead + s + trail)
  {
    var padded := lead + s + trail;
    var pi, pj := |lead| + i, |lead| + j;
    assert padded[pi..pj] == s[i..j];
    assert padded[..pi] == lead + s[..i];
    assert padded[pj..] == s[j..] + trail;
    AllTrimmableConcat(lead, s[..i]);
    AllTrimmableConcat(s[j..], trail);
  }

  lemma AllTrimmableConcat(a: string, b: string)
    requires AllTrimmable(a) && AllTrimmable(b)
    ensures AllTrimmable(a + b)
  {
    forall k | 0 <= k < |a + b| ensures IsTrimmable((a + b)[k]) {
      if k < |a| { assert (a + b)[k] == a[k]; } else { assert (a + b)[k] == b[k - |a|]; }
    }
  }

  /** Trimming twice is trimming once. */
  lemma TrimIdempotent(s: string)
    ensures Trim(Trim(s)) == Trim(s)
  {
    var r := Trim(s);
    assert LeadingCount(r) == 0;
    assert r[0..] == r;
    assert TrailingCount(r) == 0;
  }

  // ---------------------------------------------------------------------------
  // equalsIgnoreCase
  // ---------------------------------------------------------------------------

  /** `Character.toUpperCase`, restricted to the ASCII letters. */
  function ToUpperCase(c: char): char {
    if 'a' <= c <= 'z' then (c as int - 32) as char else c
  }

  /** `Character.toLowerCase`, restricted to the ASCII letters. */
  function ToLowerCase(c: char): char {
    if 'A' <= c <= 'Z' then (c as int + 32) as char else c
  }

  /**
   * The per-character test of `String.regionMatches(true, ...)`: the two
   * characters are equal, or equal once upper-cased, or equal once the
   * upper-cased forms are lower-cased.
   */
  predicate CharsMatchIgnoringCase(c1: char, c2: char) {
    || c1 == c2
    || ToUpperCase(c1) == ToUpperCase(c2)
    || ToLowerCase(ToUpperCase(c1)) == ToLowerCase(ToUpperCase(c2))
  }

  /** Lower-cases every character. */
  function LowerCase(s: string): (r: string)
    ensures |r| == |s|
    ensures forall i :: 0 <= i < |s| ==> r[i] == ToLowerCase(s[i])
  {
    if s == [] then [] else [ToLowerCase(s[0])] + LowerCase(s[1..])
  }

  /** Upper-cases every character. */
  function UpperCase(s: string): (r: string)
    ensures |r| == |s|
    ensures forall i :: 0 <= i < |s| ==> r[i] == ToUpperCase(s[i])
  {
    if s == [] then [] else [ToUpperCase(s[0])] + UpperCase(s[1..])
  }

  /** Java's rule for one character pair is equality of the lower-case folds. */
  lemma CharsMatchIffSameFold(c1: char, c2: char)
    ensures CharsMatchIgnoringCase(c1, c2) <==> ToLowerCase(c1) == ToLowerCase(c2)
  {
  }

  /** `s.equalsIgnoreCase(other)`: false on `null`, otherwise same length and every pair matches. */
  function EqualsIgnoreCase(s: string, other: Option<string>): (r: bool)
    ensures r <==> other.Some? && LowerCase(s) == LowerCase(other.value)
  {
    var result := other.Some? && |other.value| == |s|
                  && forall i :: 0 <= i < |s| ==> CharsMatchIgnoringCase(s[i], other.value[i]);
    SameLengthMatchIffSameFold(s, other);
    result
  }

  lemma SameLengthMatchIffSameFold(s: string, other: Option<string>)
    ensures (other.Some? && |other.value| == |s|
             && forall i :: 0 <= i < |s| ==> CharsMatchIgnoringCase(s[i], other.value[i]))
            <==> other.Some? && LowerCase(s) == LowerCase(other.value)
  {
    if other.Some? {
      var t := other.value;
      if LowerCase(s) == LowerCase(t) {
        forall i | 0 <= i < |s| ensures CharsMatchIgnoringCase(s[i], t[i]) {
          assert LowerCase(s)[i] == LowerCase(t)[i];
          CharsMatchIffSameFold(s[i], t[i]);
        }
      }
      if |t| == |s| && forall i :: 0 <= i < |s| ==> CharsMatchIgnoringCase(s[i], t[i]) {
        forall i | 0 <= i < |s| ensures LowerCase(s)[i] == LowerCase(t)[i] {
          CharsMatchIffSameFold(s[i], t[i]);
        }
      }
    }
  }

  /** `equalsIgnoreCase` between two non-null strings is symmetric. */
  lemma EqualsIgnoreCaseSymmetric(a: string, b: string)
    ensures EqualsIgnoreCase(a, Some(b)) <==> EqualsIgnoreCase(b, Some(a))
  {
  }

  /** Folding an upper-cased string gives the fold of the original. */
  lemma LowerCaseOfUpperCase(s: string)
    ensures LowerCase(UpperCase(s)) == LowerCase(s)
  {
    assert forall i :: 0 <= i < |s| ==> LowerCase(UpperCase(s))[i] == LowerCase(s)[i];
  }

  /** Folding is idempotent. */
  lemma LowerCaseOfLowerCase(s: string)
    ensures LowerCase(LowerCase(s)) == LowerCase(s)
  {
    assert forall i :: 0 <= i < |s| ==> LowerCase(LowerCase(s))[i] == LowerCase(s)[i];
  }

  /** Changing the letter case of the argument never changes the answer of `equalsIgnoreCase`. */
  lemma EqualsIgnoreCaseIgnoresArgumentCase(s: string, t: string)
    ensures EqualsIgnoreCase(s, Some(UpperCase(t))) == EqualsIgnoreCase(s, Some(t))
    ensures EqualsIgnoreCase(s, Some(LowerCase(t))) == EqualsIgnoreCase(s, Some(t))
  {
    LowerCaseOfUpperCase(t);
    LowerCaseOfLowerCase(t);
  }

  // ---------------------------------------------------------------------------
  // concatenation and contains
  // ---------------------------------------------------------------------------

  /** How `"..." + s` renders a possibly-null `String`: `null` becomes the text "null". */
  function ConcatForm(s: Option<string>): string {
    match s
    case None => "null"
    case Some(v) => v
  }

  /** `s.contains(sub)`. */
  ghost predicate Contains(s: string, sub: string) {
    exists i, j :: 0 <= i <= j <= |s| && s[i..j] == sub
  }

  /** A string contains each middle piece it is concatenated from. */
  lemma ContainsMiddle(a: string, b: string, c: string)
    ensures Contains(a + b + c, b)
  {
    assert (a + b + c)[|a|..|a| + |b|] == b;
  }
}
