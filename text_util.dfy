/** Character classes and the string operations of Python's `str` that the
    resume analyzer relies on: `split()`, `split(sep)`, `strip()`, `lower()`,
    `capitalize()`, `sep.join(...)`, the `in` substring test and the `\w+`
    tokenizer of `re.findall`. */
module TextUtil {

  datatype Option<T> = None | Some(value: T)

  datatype Result<T, E> = Success(value: T) | Failure(error: E)

  // ---------------------------------------------------------------------
  // Character classes
  // ---------------------------------------------------------------------

  /** The characters Python's `str.split()` and `str.strip()` treat as
      whitespace (`str.isspace`). */
  predicate IsSpace(c: char) {
    ('\t' <= c <= '\r') || ('\U{1C}' <= c <= '\U{1F}') || c == ' '
    || c == '\U{85}' || c == '\U{A0}' || c == '\U{1680}'
    || ('\U{2000}' <= c <= '\U{200A}') || c == '\U{2028}' || c == '\U{2029}'
    || c == '\U{202F}' || c == '\U{205F}' || c == '\U{3000}'
  }

  /** `c.isupper()` for a single character, ASCII letters only. */
  predicate IsUpper(c: char) {
    'A' <= c <= 'Z'
  }

  /** The `\w` class of a regular expression, ASCII letters, digits and `_`. */
  predicate IsWordChar(c: char) {
    ('a' <= c <= 'z') || ('A' <= c <= 'Z') || ('0' <= c <= '9') || c == '_'
  }

  function LowerChar(c: char): (r: char)
    ensures !IsUpper(r)
    ensures IsUpper(c) || r == c
  {
    if IsUpper(c) then (c as int + 32) as char else c
  }

  function UpperChar(c: char): (r: char)
    ensures !('a' <= r <= 'z')
    ensures ('a' <= c <= 'z') || r == c
  {
    if 'a' <= c <= 'z' then (c as int - 32) as char else c
  }

  /** `s.lower()`. */
  function Lower(s: string): (r: string)
    ensures |r| == |s|
    ensures forall i :: 0 <= i < |s| ==> r[i] == LowerChar(s[i])
  {
    seq(|s|, i requires 0 <= i < |s| => LowerChar(s[i]))
  }

  /** Dropping the front part of a concatenation leaves the back part. */
  lemma DropFront(a: string, b: string)
    ensures (a + b)[|a|..] == b
  {
    forall i | 0 <= i < |b| ensures (a + b)[|a|..][i] == b[i] {
      assert (a + b)[|a| + i] == b[i];
    }
  }

  /** Lowering works character by character from the front. */
  lemma LowerPrepend(c: char, s: string)
    ensures Lower([c] + s) == [LowerChar(c)] + Lower(s)
  {
    var a, b := Lower([c] + s), [LowerChar(c)] + Lower(s);
    forall i | 0 <= i < |a| ensures a[i] == b[i] {
      if i > 0 {
        assert ([c] + s)[i] == s[i - 1];
      }
    }
  }

  /** `s.capitalize()`: the first character in upper case, the rest in lower case. */
  function Capitalize(s: string): (r: string)
    ensures |r| == |s|
    ensures s != [] ==> r[0] == UpperChar(s[0]) && r[1..] == Lower(s[1..])
  {
    if s == [] then [] else [UpperChar(s[0])] + Lower(s[1..])
  }

  // ---------------------------------------------------------------------
  // Substrings
  // ---------------------------------------------------------------------

  /** `pat` occurs in `s` starting at index `i`. */
  predicate PrefixAt(s: string, i: nat, pat: string) {
    i + |pat| <= |s| && s[i..i + |pat|] == pat
  }

  /** Python's `pat in s`. */
  predicate Contains(s: string, pat: string) {
    exists i | 0 <= i <= |s| :: PrefixAt(s, i, pat)
  }

  /** A string in which every character is whitespace cannot contain a
      pattern that starts with a non-whitespace character. */
  lemma SpacesContainNoWord(s: string, pat: string)
    requires forall i :: 0 <= i < |s| ==> IsSpace(s[i])
    requires pat != [] && !IsSpace(pat[0])
    ensures !Contains(s, pat)
  {
    forall i | 0 <= i <= |s| ensures !PrefixAt(s, i, pat) {
      if i + |pat| <= |s| {
        assert s[i..i + |pat|][0] == s[i];
      }
    }
  }

  // ---------------------------------------------------------------------
  // strip()
  // ---------------------------------------------------------------------

  predicate AllSpace(s: string) {
    forall i :: 0 <= i < |s| ==> IsSpace(s[i])
  }

  /** Number of leading whitespace characters of `s`. */
  function LeadingSpace(s: string): (n: nat)
    ensures n <= |s|
    ensures AllSpace(s[..n])
    ensures n < |s| ==> !IsSpace(s[n])
  {
    if s == [] || !IsSpace(s[0]) then 0
    else
      var m := LeadingSpace(s[1..]);
      assert s[..m + 1] == [s[0]] + s[1..][..m];
      m + 1
  }

  /** Length of `s` without its trailing whitespace. */
  function TrailingStart(s: string): (n: nat)
    ensures n <= |s|
    ensures AllSpace(s[n..])
    ensures n > 0 ==> !IsSpace(s[n - 1])
  {
    if s == [] || !IsSpace(s[|s| - 1]) then |s|
    else
      var m := TrailingStart(s[..|s| - 1]);
      assert s[m..] == s[..|s| - 1][m..] + [s[|s| - 1]];
      m
  }

  /** `s.strip()`. */
  function Strip(s: string): (r: string)
    ensures |r| <= |s|
  {
    var t := s[LeadingSpace(s)..];
    t[..TrailingStart(t)]
  }

  /** `s.strip()` is `s` without leading and trailing whitespace: a slice of
      `s` with only whitespace around it, starting and ending with a
      non-whitespace character, and empty exactly for a blank `s`. */
  lemma StripTrims(s: string)
    ensures var r := Strip(s);
      && LeadingSpace(s) + |r| <= |s|
      && r == s[LeadingSpace(s)..LeadingSpace(s) + |r|]
      && AllSpace(s[..LeadingSpace(s)]) && AllSpace(s[LeadingSpace(s) + |r|..])
      && (r != [] ==> !IsSpace(r[0]) && !IsSpace(r[|r| - 1]))
      && (r == [] <==> AllSpace(s))
  {
    var a := LeadingSpace(s);
    StripSlices(s, a, TrailingStart(s[a..]));
  }

  /** Stripping a string without whitespace at either end changes nothing. */
  lemma StripTrimmed(s: string)
    requires s == [] || (!IsSpace(s[0]) && !IsSpace(s[|s| - 1]))
    ensures Strip(s) == s
  {
    if s != [] {
      assert LeadingSpace(s) == 0;
      assert s[0..] == s;
    }
  }

  lemma StripSlices(s: string, a: nat, b: nat)
    requires a == LeadingSpace(s) && b == TrailingStart(s[a..])
    ensures AllSpace(s[a + b..])
    ensures b == 0 <==> AllSpace(s)
  {
    var t := s[a..];
    assert s[a + b..] == t[b..];
    if b == 0 {
      assert t[0..] == t;
      assert s == s[..a] + t;
    }
  }


  // ---------------------------------------------------------------------
  // split(sep) and sep.join(...)
  // ---------------------------------------------------------------------

  /** `s.split(c)`: the pieces of `s` between occurrences of `c`; always at
      least one piece (`"".split(c) == [""]`). */
  function SplitOn(s: string, c: char): (r: seq<string>)
    ensures |r| >= 1
    ensures forall k :: 0 <= k < |r| ==> c !in r[k]
  {
    if s == [] then [[]]
    else
      var rest := SplitOn(s[1..], c);
      if s[0] == c then [[]] + rest
      else [[s[0]] + rest[0]] + rest[1..]
  }

  /** `sep.join(xs)`: as long as the parts together, plus one separator
      between each two of them. */
  function Join(sep: string, xs: seq<string>): (r: string)
    ensures xs == [] ==> r == []
    ensures xs != [] ==> |r| == TotalLength(xs) + (|xs| - 1) * |sep|
  {
    if xs == [] then []
    else if |xs| == 1 then xs[0]
    else xs[0] + sep + Join(sep, xs[1..])
  }

  /** Total length of a sequence of strings. */
  function TotalLength(xs: seq<string>): nat
  {
    if xs == [] then 0 else |xs[0]| + TotalLength(xs[1..])
  }

  /** The first piece of a split followed by `pad + piece` for the others:
      what splitting on `c` gives back for a join with separator `[c] + pad`. */
  function PadTail(xs: seq<string>, pad: string): (r: seq<string>)
    requires |xs| >= 1
    ensures |r| == |xs| && r[0] == xs[0]
    ensures forall k :: 1 <= k < |xs| ==> r[k] == pad + xs[k]
  {
    [xs[0]] + seq(|xs| - 1, k requires 0 <= k < |xs| - 1 => pad + xs[k + 1])
  }

  lemma {:induction false} SplitOnFree(s: string, c: char)
    requires c !in s
    ensures SplitOn(s, c) == [s]
  {
    if s != [] {
      SplitOnFree(s[1..], c);
      assert [s[0]] + s[1..] == s;
    }
  }

  lemma {:induction false} SplitOnPrefix(a: string, c: char, t: string)
    requires c !in a
    ensures SplitOn(a + t, c) == [a + SplitOn(t, c)[0]] + SplitOn(t, c)[1..]
  {
    if a != [] {
      SplitOnPrefix(a[1..], c, t);
      var rest := SplitOn(a[1..] + t, c);
      assert (a + t)[1..] == a[1..] + t;
      assert a[0] != c;
      assert SplitOn(a + t, c) == [[a[0]] + rest[0]] + rest[1..];
      assert rest[0] == a[1..] + SplitOn(t, c)[0];
      assert rest[1..] == SplitOn(t, c)[1..];
      assert [a[0]] + (a[1..] + SplitOn(t, c)[0]) == a + SplitOn(t, c)[0];
    } else {
      assert a + t == t;
      assert a + SplitOn(t, c)[0] == SplitOn(t, c)[0];
      assert [a + SplitOn(t, c)[0]] + SplitOn(t, c)[1..] == SplitOn(t, c);
    }
  }

  lemma SplitOnSeparator(a: string, c: char, t: string)
    requires c !in a
    ensures SplitOn(a + [c] + t, c) == [a] + SplitOn(t, c)
  {
    SplitOnPrefix(a, c, [c] + t);
    assert a + [c] + t == a + ([c] + t);
    assert ([c] + t)[1..] == t;
    assert SplitOn([c] + t, c) == [[]] + SplitOn(t, c);
    assert a + [] == a;
  }

  /** Splitting a join on the separator's first character recovers the
      joined strings (each after the first still carrying the rest of the
      separator), provided that character occurs nowhere else. */
  lemma {:induction false} SplitJoin(c: char, pad: string, xs: seq<string>)
    requires |xs| >= 1
    requires c !in pad
    requires forall k :: 0 <= k < |xs| ==> c !in xs[k]
    ensures SplitOn(Join([c] + pad, xs), c) == PadTail(xs, pad)
  {
    if |xs| == 1 {
      SplitOnFree(xs[0], c);
    } else {
      var rest := Join([c] + pad, xs[1..]);
      SplitJoin(c, pad, xs[1..]);
      assert Join([c] + pad, xs) == xs[0] + [c] + (pad + rest);
      SplitOnSeparator(xs[0], c, pad + rest);
      SplitOnPrefix(pad, c, rest);
    }
  }

  /** `c.join(xs).split(c) == xs` when no element contains `c`. */
  lemma SplitJoinRoundTrip(c: char, xs: seq<string>)
    requires |xs| >= 1
    requires forall k :: 0 <= k < |xs| ==> c !in xs[k]
    ensures SplitOn(Join([c], xs), c) == xs
  {
    var none: string := [];
    SplitJoin(c, none, xs);
    assert [c] + none == [c];
    var back := PadTail(xs, none);
    forall k | 0 <= k < |xs| ensures back[k] == xs[k] {
      if k > 0 { assert back[k] == none + xs[k]; }
    }
  }

  /** `c.join(s.split(c)) == s`. */
  lemma {:induction false} JoinSplitRoundTrip(s: string, c: char)
    ensures Join([c], SplitOn(s, c)) == s
  {
    if s != [] {
      var rest := SplitOn(s[1..], c);
      JoinSplitRoundTrip(s[1..], c);
      if s[0] == c {
        assert SplitOn(s, c) == [[]] + rest;
        assert ([[]] + rest)[1..] == rest;
      } else {
        var r := SplitOn(s, c);
        assert r == [[s[0]] + rest[0]] + rest[1..];
        if |rest| == 1 {
          assert Join([c], rest) == rest[0];
        } else {
          assert Join([c], rest) == rest[0] + [c] + Join([c], rest[1..]);
          assert r[1..] == rest[1..];
        }
      }
    }
  }

  // ---------------------------------------------------------------------
  // Maximal runs: `s.split()` and `re.findall(r'\w+', s)`
  // ---------------------------------------------------------------------

  /** Length of the run of characters satisfying `p` at the start of `s`. */
  function RunLength(s: string, p: char -> bool): (n: nat)
    ensures n <= |s|
    ensures forall i :: 0 <= i < n ==> p(s[i])
    ensures n < |s| ==> !p(s[n])
  {
    if s == [] || !p(s[0]) then 0 else 1 + RunLength(s[1..], p)
  }

  /** The maximal runs of characters satisfying `p`, left to right. */
  function Runs(s: string, p: char -> bool): (r: seq<string>)
    ensures forall k :: 0 <= k < |r| ==> r[k] != []
    ensures forall k, i :: 0 <= k < |r| && 0 <= i < |r[k]| ==> p(r[k][i])
    ensures |r| <= |s|
    decreases |s|
  {
    if s == [] then []
    else if !p(s[0]) then Runs(s[1..], p)
    else
      var n := RunLength(s, p);
      [s[..n]] + Runs(s[n..], p)
  }

  /** A run of class characters ended by the end of the text or by a
      character outside the class is read whole. */
  lemma {:induction false} RunLengthOf(b: string, t: string, p: char -> bool)
    requires forall i :: 0 <= i < |b| ==> p(b[i])
    requires t == [] || !p(t[0])
    ensures RunLength(b + t, p) == |b|
  {
    if b != [] {
      RunLengthOf(b[1..], t, p);
      assert (b + t)[1..] == b[1..] + t;
    } else {
      assert b + t == t;
    }
  }

  /** Characters outside the class before a text contribute no run. */
  lemma {:induction false} RunsSkip(a: string, t: string, p: char -> bool)
    requires forall i :: 0 <= i < |a| ==> !p(a[i])
    ensures Runs(a + t, p) == Runs(t, p)
  {
    if a != [] {
      RunsSkip(a[1..], t, p);
      assert (a + t)[1..] == a[1..] + t;
    } else {
      assert a + t == t;
    }
  }

  /** The step that fixes which strings the runs are: skipping characters
      outside the class, the first run is the maximal run `b` of class
      characters that follows, and the rest are the runs of what remains. */
  lemma RunsStep(a: string, b: string, t: string, p: char -> bool)
    requires forall i :: 0 <= i < |a| ==> !p(a[i])
    requires b != [] && forall i :: 0 <= i < |b| ==> p(b[i])
    requires t == [] || !p(t[0])
    ensures Runs(a + b + t, p) == [b] + Runs(t, p)
  {
    assert a + b + t == a + (b + t);
    RunsSkip(a, b + t, p);
    RunLengthOf(b, t, p);
    assert (b + t)[..|b|] == b && (b + t)[|b|..] == t;
  }

  /** Number of indices that start a run: `s[i]` satisfies `p` and the
      previous character (if any) does not; `prevOut` says whether the
      character before `s` is outside the class. */
  function RunStarts(s: string, p: char -> bool, prevOut: bool): nat
  {
    if s == [] then 0
    else (if p(s[0]) && prevOut then 1 else 0) + RunStarts(s[1..], p, !p(s[0]))
  }

  lemma {:induction false} RunStartsInside(s: string, p: char -> bool, k: nat)
    requires k <= |s|
    requires forall i :: 0 <= i < k ==> p(s[i])
    ensures RunStarts(s, p, false) == RunStarts(s[k..], p, false)
  {
    if k > 0 {
      RunStartsInside(s[1..], p, k - 1);
      assert s[1..][k - 1..] == s[k..];
    }
  }

  /** The run decomposition yields exactly one string per run start. */
  lemma {:induction false} RunsCountStarts(s: string, p: char -> bool)
    ensures |Runs(s, p)| == RunStarts(s, p, true)
    decreases |s|
  {
    if s != [] {
      if !p(s[0]) {
        RunsCountStarts(s[1..], p);
      } else {
        var n := RunLength(s, p);
        RunsCountStarts(s[n..], p);
        RunStartsInside(s[1..], p, n - 1);
        assert s[1..][n - 1..] == s[n..];
        if n < |s| {
          assert !p(s[n]);
        }
      }
    }
  }

  /** There are no runs exactly when no character is in the class. */
  lemma {:induction false} RunsEmptyIff(s: string, p: char -> bool)
    ensures Runs(s, p) == [] <==> forall i :: 0 <= i < |s| ==> !p(s[i])
    decreases |s|
  {
    if s != [] && !p(s[0]) {
      RunsEmptyIff(s[1..], p);
      if Runs(s, p) == [] {
        forall i | 0 <= i < |s| ensures !p(s[i]) {
          if i > 0 { assert s[i] == s[1..][i - 1]; }
        }
      }
    }
  }

  /** Concatenation of a sequence of strings. */
  function Concat(xs: seq<string>): string
  {
    if xs == [] then [] else xs[0] + Concat(xs[1..])
  }

  /** The characters of `s` in the class, in order. */
  function Keep(s: string, p: char -> bool): string
  {
    if s == [] then [] else (if p(s[0]) then [s[0]] else []) + Keep(s[1..], p)
  }

  lemma {:induction false} KeepAppend(a: string, b: string, p: char -> bool)
    ensures Keep(a + b, p) == Keep(a, p) + Keep(b, p)
  {
    if a != [] {
      KeepAppend(a[1..], b, p);
      assert (a + b)[1..] == a[1..] + b;
      assert (a + b)[0] == a[0];
      var head := if p(a[0]) then [a[0]] else [];
      assert Keep(a + b, p) == head + Keep(a[1..] + b, p);
      assert Keep(a, p) == head + Keep(a[1..], p);
      assert head + (Keep(a[1..], p) + Keep(b, p)) == (head + Keep(a[1..], p)) + Keep(b, p);
    } else {
      assert a + b == b;
    }
  }

  lemma {:induction false} KeepAll(s: string, p: char -> bool)
    requires forall i :: 0 <= i < |s| ==> p(s[i])
    ensures Keep(s, p) == s
  {
    if s != [] {
      KeepAll(s[1..], p);
    }
  }

  /** The runs, put back together, are the characters of `s` in the class:
      nothing is lost and nothing is added. */
  lemma {:induction false} RunsCoverClass(s: string, p: char -> bool)
    ensures Concat(Runs(s, p)) == Keep(s, p)
    decreases |s|
  {
    if s != [] {
      if !p(s[0]) {
        RunsCoverClass(s[1..], p);
      } else {
        var n := RunLength(s, p);
        RunsCoverClass(s[n..], p);
        assert s == s[..n] + s[n..];
        KeepAppend(s[..n], s[n..], p);
        KeepAll(s[..n], p);
      }
    }
  }

  predicate NotSpace(c: char) {
    !IsSpace(c)
  }

  /** `s.split()`: the whitespace-separated words of `s`. */
  function Words(s: string): (r: seq<string>)
    ensures forall k, i :: 0 <= k < |r| && 0 <= i < |r[k]| ==> !IsSpace(r[k][i])
  {
    Runs(s, NotSpace)
  }

  /** `re.findall(r'\w+', s)`: the maximal runs of word characters of `s`. */
  function Tokens(s: string): (r: seq<string>)
    ensures forall k, i :: 0 <= k < |r| && 0 <= i < |r[k]| ==> IsWordChar(r[k][i])
  {
    Runs(s, IsWordChar)
  }

  /** A non-empty string of word characters: what `\w+` matches. */
  predicate IsWordString(w: string) {
    w != [] && forall i | 0 <= i < |w| :: IsWordChar(w[i])
  }

  /** `set(re.findall(r'\w+', s))`. */
  function TokenSet(s: string): (r: set<string>)
    ensures forall w | w in r :: IsWordString(w)
  {
    set k | 0 <= k < |Tokens(s)| :: Tokens(s)[k]
  }
}
