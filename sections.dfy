/** The experience and education summaries of `analyze_resume`
    (ml_utils.py:61-71). Each is a `re.search` with the DOTALL flag for
    `(HEADER)(.*?)(BOUNDARY|$)` on the lowercased text, written out here as an
    explicit search: the leftmost position where one of the header words
    starts, then the lazy group, which ends at the first position after the
    header where a boundary word starts or `$` matches. */
module Sections {
  import opened TextUtil

  const ExperienceHeaders: seq<string> := ["experience", "work history", "professional experience"]
  const ExperienceBoundaries: seq<string> := ["education", "skills"]
  const ExperienceSentinel: string := "Experience section not found."

  const EducationHeaders: seq<string> := ["education"]
  const EducationBoundaries: seq<string> := ["experience", "skills"]
  const EducationSentinel: string := "Education section not found."

  /** Some alternative of `alts` starts at position `p` of `s`. */
  predicate AnyAt(s: string, p: nat, alts: seq<string>) {
    exists i | 0 <= i < |alts| :: PrefixAt(s, p, alts[i])
  }

  /** Python's `$` without MULTILINE: the end of the string, or just before
      a newline that ends the string. */
  predicate AtEnd(s: string, p: nat) {
    p == |s| || (p + 1 == |s| && s[p] == '\n')
  }

  /** The alternation `(a0|a1|...)` tried at position `p`: the length of the
      first alternative, in the order written, that matches there. */
  function AlternativeAt(s: string, p: nat, alts: seq<string>): (r: Option<nat>)
    ensures r == None <==> !AnyAt(s, p, alts)
    ensures r.Some? ==> exists i | 0 <= i < |alts| :: PrefixAt(s, p, alts[i]) && r.value == |alts[i]|
    ensures r.Some? ==> p + r.value <= |s|
  {
    if alts == [] then None
    else if PrefixAt(s, p, alts[0]) then Some(|alts[0]|)
    else
      var r := AlternativeAt(s, p, alts[1..]);
      assert forall i | 1 <= i < |alts| :: alts[i] == alts[1..][i - 1];
      assert AnyAt(s, p, alts[1..]) ==> AnyAt(s, p, alts);
      r
  }

  /** The leftmost position at or after `p` where a header word starts,
      with the length of the header matched there. */
  function FindHeader(s: string, headers: seq<string>, p: nat): (r: Option<(nat, nat)>)
    requires p <= |s| + 1
    ensures r == None ==> forall q | p <= q <= |s| :: !AnyAt(s, q, headers)
    ensures r.Some? ==> p <= r.value.0 && r.value.0 + r.value.1 <= |s|
    ensures r.Some? ==> AlternativeAt(s, r.value.0, headers) == Some(r.value.1)
    ensures r.Some? ==> forall q | p <= q < r.value.0 :: !AnyAt(s, q, headers)
    decreases |s| + 1 - p
  {
    if p > |s| then None
    else
      var here := AlternativeAt(s, p, headers);
      if here.Some? then Some((p, here.value))
      else
        assert !AnyAt(s, p, headers);
        FindHeader(s, headers, p + 1)
  }

  /** Where the lazy `(.*?)` stops: the first position at or after `p` where
      a boundary word starts or `$` matches. */
  function BoundaryFrom(s: string, boundaries: seq<string>, p: nat): (k: nat)
    requires p <= |s|
    ensures p <= k <= |s|
    ensures AnyAt(s, k, boundaries) || AtEnd(s, k)
    ensures forall q | p <= q < k :: !AnyAt(s, q, boundaries) && !AtEnd(s, q)
    decreases |s| - p
  {
    if AnyAt(s, p, boundaries) || AtEnd(s, p) then p
    else BoundaryFrom(s, boundaries, p + 1)
  }

  /** `match.group(2)` of the search, or `None` when the search fails. */
  function SearchGroup(s: string, headers: seq<string>, boundaries: seq<string>): (r: Option<string>)
    ensures r.None? <==> forall q | 0 <= q <= |s| :: !AnyAt(s, q, headers)
    ensures r.Some? ==> |r.value| <= |s|
  {
    var found := FindHeader(s, headers, 0);
    if found.None? then None
    else
      var groupStart := found.value.0 + found.value.1;
      Some(s[groupStart..BoundaryFrom(s, boundaries, groupStart)])
  }

  /** The summary string: the sentinel when the search fails, otherwise the
      captured group stripped and capitalized. */
  function Section(s: string, headers: seq<string>, boundaries: seq<string>, sentinel: string): (r: string)
    ensures (forall q | 0 <= q <= |s| :: !AnyAt(s, q, headers)) ==> r == sentinel
    ensures r == sentinel || |r| <= |s|
  {
    match SearchGroup(s, headers, boundaries)
    case None => sentinel
    case Some(group) => Capitalize(Strip(group))
  }

  /** `experience_summary` for the lowercased text. */
  function ExperienceSummary(textLower: string): (r: string)
    ensures (forall q | 0 <= q <= |textLower| :: !AnyAt(textLower, q, ExperienceHeaders)) ==> r == ExperienceSentinel
    ensures r == ExperienceSentinel || |r| <= |textLower|
  {
    Section(textLower, ExperienceHeaders, ExperienceBoundaries, ExperienceSentinel)
  }

  /** `education_summary` for the lowercased text. */
  function EducationSummary(textLower: string): (r: string)
    ensures (forall q | 0 <= q <= |textLower| :: !AnyAt(textLower, q, EducationHeaders)) ==> r == EducationSentinel
    ensures r == EducationSentinel || |r| <= |textLower|
  {
    Section(textLower, EducationHeaders, EducationBoundaries, EducationSentinel)
  }

  // ---------------------------------------------------------------------
  // Properties
  // ---------------------------------------------------------------------

  /** With no header word anywhere in the text, the summary is the sentinel. */
  lemma NoHeaderGivesSentinel(s: string, headers: seq<string>, boundaries: seq<string>, sentinel: string)
    requires forall q | 0 <= q <= |s| :: !AnyAt(s, q, headers)
    ensures Section(s, headers, boundaries, sentinel) == sentinel
  {
  }

  /** The search, described without the search: if `headers[i]` is the first
      alternative matching at `p`, no header starts before `p`, and `k` is the
      first position after that header where a boundary word starts or `$`
      matches, then `group(2)` is the text between. The capture therefore
      never runs past the first boundary. */
  lemma SectionGroup(s: string, headers: seq<string>, boundaries: seq<string>, p: nat, i: nat, k: nat)
    requires i < |headers| && PrefixAt(s, p, headers[i])
    requires forall j | 0 <= j < i :: !PrefixAt(s, p, headers[j])
    requires forall q | 0 <= q < p :: !AnyAt(s, q, headers)
    requires p + |headers[i]| <= k <= |s|
    requires AnyAt(s, k, boundaries) || AtEnd(s, k)
    requires forall q | p + |headers[i]| <= q < k :: !AnyAt(s, q, boundaries) && !AtEnd(s, q)
    ensures SearchGroup(s, headers, boundaries) == Some(s[p + |headers[i]|..k])
  {
    var n := |headers[i]|;
    assert FindHeader(s, headers, 0) == Some((p, n)) by {
      LeftmostHeader(s, headers, p, i);
    }
    assert BoundaryFrom(s, boundaries, p + n) == k by {
      FirstBoundary(s, boundaries, p + n, k);
    }
    GroupOfMatch(s, headers, boundaries, p, n, k, s[p + n..k]);
  }

  /** Under the same conditions the summary is that text, stripped and
      capitalized. */
  lemma SectionCaptures(s: string, headers: seq<string>, boundaries: seq<string>,
                        sentinel: string, p: nat, i: nat, k: nat)
    requires i < |headers| && PrefixAt(s, p, headers[i])
    requires forall j | 0 <= j < i :: !PrefixAt(s, p, headers[j])
    requires forall q | 0 <= q < p :: !AnyAt(s, q, headers)
    requires p + |headers[i]| <= k <= |s|
    requires AnyAt(s, k, boundaries) || AtEnd(s, k)
    requires forall q | p + |headers[i]| <= q < k :: !AnyAt(s, q, boundaries) && !AtEnd(s, q)
    ensures Section(s, headers, boundaries, sentinel) == Capitalize(Strip(s[p + |headers[i]|..k]))
  {
    SectionGroup(s, headers, boundaries, p, i, k);
    SectionOfGroup(s, headers, boundaries, sentinel, s[p + |headers[i]|..k]);
  }

  lemma SectionOfGroup(s: string, headers: seq<string>, boundaries: seq<string>, sentinel: string, group: string)
    requires SearchGroup(s, headers, boundaries) == Some(group)
    ensures Section(s, headers, boundaries, sentinel) == Capitalize(Strip(group))
  {
  }

  lemma GroupOfMatch(s: string, headers: seq<string>, boundaries: seq<string>,
                     p: nat, n: nat, k: nat, group: string)
    requires FindHeader(s, headers, 0) == Some((p, n))
    requires p + n <= k <= |s| && BoundaryFrom(s, boundaries, p + n) == k
    requires group == s[p + n..k]
    ensures SearchGroup(s, headers, boundaries) == Some(group)
  {
  }

  /** The search for a header finds the leftmost one. */
  lemma LeftmostHeader(s: string, headers: seq<string>, p: nat, i: nat)
    requires i < |headers| && PrefixAt(s, p, headers[i])
    requires forall j | 0 <= j < i :: !PrefixAt(s, p, headers[j])
    requires forall q | 0 <= q < p :: !AnyAt(s, q, headers)
    ensures FindHeader(s, headers, 0) == Some((p, |headers[i]|))
  {
    FirstAlternative(s, p, headers, i);
    HeaderFrom(s, headers, 0, p, |headers[i]|);
  }

  lemma {:induction false} HeaderFrom(s: string, headers: seq<string>, q: nat, p: nat, n: nat)
    requires q <= p <= |s|
    requires AlternativeAt(s, p, headers) == Some(n)
    requires forall q' | q <= q' < p :: !AnyAt(s, q', headers)
    ensures FindHeader(s, headers, q) == Some((p, n))
    decreases p - q
  {
    if q < p {
      assert !AnyAt(s, q, headers);
      HeaderFrom(s, headers, q + 1, p, n);
    }
  }

  /** The lazy group stops at the first boundary. */
  lemma FirstBoundary(s: string, boundaries: seq<string>, h: nat, k: nat)
    requires h <= k <= |s|
    requires AnyAt(s, k, boundaries) || AtEnd(s, k)
    requires forall q | h <= q < k :: !AnyAt(s, q, boundaries) && !AtEnd(s, q)
    ensures BoundaryFrom(s, boundaries, h) == k
  {
  }

  lemma {:induction false} FirstAlternative(s: string, p: nat, alts: seq<string>, i: nat)
    requires i < |alts| && PrefixAt(s, p, alts[i])
    requires forall j | 0 <= j < i :: !PrefixAt(s, p, alts[j])
    ensures AlternativeAt(s, p, alts) == Some(|alts[i]|)
  {
    if i > 0 {
      assert forall j | 0 <= j < i - 1 :: alts[1..][j] == alts[j + 1];
      FirstAlternative(s, p, alts[1..], i - 1);
    }
  }

  /** When the leftmost header (the one the search finds) is directly
      followed by a boundary word, the summary is empty, not the sentinel. */
  lemma HeaderThenBoundary(s: string, headers: seq<string>, boundaries: seq<string>,
                           sentinel: string, p: nat, i: nat)
    requires i < |headers| && PrefixAt(s, p, headers[i])
    requires forall j | 0 <= j < i :: !PrefixAt(s, p, headers[j])
    requires forall q | 0 <= q < p :: !AnyAt(s, q, headers)
    requires AnyAt(s, p + |headers[i]|, boundaries)
    ensures Section(s, headers, boundaries, sentinel) == ""
  {
    SectionCaptures(s, headers, boundaries, sentinel, p, i, p + |headers[i]|);
    assert s[(p + |headers[i]|)..(p + |headers[i]|)] == [];
  }

  /** At a given position at most one experience header can match (their
      first letters differ), so which alternative is tried first never
      matters for the experience summary. */
  lemma ExperienceHeadersExclusive(s: string, p: nat, i: nat, j: nat)
    requires i < j < |ExperienceHeaders|
    ensures !(PrefixAt(s, p, ExperienceHeaders[i]) && PrefixAt(s, p, ExperienceHeaders[j]))
  {
    var hi, hj := ExperienceHeaders[i], ExperienceHeaders[j];
    assert hi[0] != hj[0];
    if PrefixAt(s, p, hi) {
      assert s[p] == s[p..p + |hi|][0] == hi[0];
      if p + |hj| <= |s| {
        assert s[p..p + |hj|][0] == s[p];
      }
    }
  }
}
