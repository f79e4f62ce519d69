/** The GROUP BY / ORDER BY headings of the pivot statement are derived from the
    row headings by one regular-expression substitution (Transform.py, line 68):

        sub(r'as [^,\n\r]+(,|$)', r'\1', Row_Headings)

    This module models exactly that one pattern, as a left-to-right scan that
    replaces every non-overlapping match by the comma it ended on (or by nothing
    when it ended at `$`). No general regular-expression engine is modelled. */
module AliasStrip {

  /** The characters that the class `[^,\n\r]` refuses. */
  predicate Excluded(c: char) {
    c == ',' || c == '\n' || c == '\r'
  }

  predicate IsComma(c: char) {
    c == ','
  }

  /** The first index at or after `i` whose character satisfies `stop`, or `|s|`. */
  function Skip(s: string, i: nat, stop: char -> bool): (e: nat)
    requires i <= |s|
    ensures i <= e <= |s|
    ensures forall k :: i <= k < e ==> !stop(s[k])
    ensures e < |s| ==> stop(s[e])
    decreases |s| - i
  {
    if i == |s| || stop(s[i]) then i else Skip(s, i + 1, stop)
  }

  /** `as ` followed by at least one character of `[^,\n\r]`. */
  predicate StartsAlias(s: string) {
    |s| > 3 && s[..3] == "as " && !Excluded(s[3])
  }

  /** End of the greedy run `[^,\n\r]+` of a match that starts at the head of `s`. */
  function RunEnd(s: string): (e: nat)
    requires StartsAlias(s)
    ensures 3 < e <= |s|
  {
    Skip(s, 3, Excluded)
  }

  /** The whole pattern matches at the head of `s`: after the greedy run comes a
      comma, the end of the string, or (Python's `$`) a newline that is the last
      character. Backtracking into the run never helps, since every shorter run
      is followed by a character of the class, which is neither `,` nor `$`. */
  predicate MatchesHere(s: string) {
    StartsAlias(s) &&
    var e := RunEnd(s);
    e == |s| || s[e] == ',' || (e == |s| - 1 && s[e] == '\n')
  }

  /** The pattern matches at position `p` of `s`. */
  predicate MatchAt(s: string, p: nat) {
    p <= |s| && MatchesHere(s[p..])
  }

  /** `as ` occurs at position `p` of `s`. */
  predicate AsAt(s: string, p: nat) {
    p + 3 <= |s| && s[p..p + 3] == "as "
  }

  /** `re.sub(r'as [^,\n\r]+(,|$)', r'\1', s)`. A match that ended on a comma
      is replaced by that comma and scanning resumes after it; a match that ended
      at `$` is replaced by nothing and only the final newline, if any, remains. */
  function StripAliases(s: string): string
    decreases |s|
  {
    if s == [] then []
    else if MatchesHere(s) then
      var e := RunEnd(s);
      if e < |s| && s[e] == ',' then [','] + StripAliases(s[e + 1..]) else s[e..]
    else [s[0]] + StripAliases(s[1..])
  }

  // ---------------------------------------------------------------------------
  // Basic guarantees

  /** The substitution never makes the text longer. */
  lemma {:induction false} StripNeverLonger(s: string)
    ensures |StripAliases(s)| <= |s|
    decreases |s|
  {
    if s == [] {
    } else if MatchesHere(s) {
      var e := RunEnd(s);
      if e < |s| && s[e] == ',' {
        StripNeverLonger(s[e + 1..]);
      }
    } else {
      StripNeverLonger(s[1..]);
    }
  }

  /** Strictly shorter whenever the pattern matches somewhere. */
  lemma {:induction false} StripShortensOnMatch(s: string, p: nat)
    requires MatchAt(s, p)
    ensures |StripAliases(s)| < |s|
    decreases p
  {
    if MatchesHere(s) {
      var e := RunEnd(s);
      if e < |s| && s[e] == ',' {
        StripNeverLonger(s[e + 1..]);
      }
    } else {
      assert p > 0;
      MatchAtTail(s, p - 1);
      StripShortensOnMatch(s[1..], p - 1);
    }
  }

  /** Dropping the first character shifts every match position down by one. */
  lemma MatchAtTail(s: string, p: nat)
    requires s != []
    ensures MatchAt(s[1..], p) <==> MatchAt(s, p + 1)
  {
    if p <= |s[1..]| {
      assert s[1..][p..] == s[p + 1..];
    }
  }

  /** Without any match the text comes back unchanged. */
  lemma {:induction false} StripUnchangedWithoutMatch(s: string)
    requires forall p: nat :: !MatchAt(s, p)
    ensures StripAliases(s) == s
    decreases |s|
  {
    if s != [] {
      assert !MatchAt(s, 0) && s[0..] == s;
      forall p: nat ensures !MatchAt(s[1..], p) {
        MatchAtTail(s, p);
      }
      StripUnchangedWithoutMatch(s[1..]);
    }
  }

  /** The substitution leaves `s` as it is exactly when the pattern matches nowhere. */
  lemma StripFixedIff(s: string)
    ensures StripAliases(s) == s <==> forall p: nat :: !MatchAt(s, p)
  {
    if forall p: nat :: !MatchAt(s, p) {
      StripUnchangedWithoutMatch(s);
    } else {
      var p: nat :| MatchAt(s, p);
      StripShortensOnMatch(s, p);
    }
  }

  /** Headings that contain no `as ` at all are returned unchanged. */
  lemma StripWithoutAs(s: string)
    requires forall p: nat :: !AsAt(s, p)
    ensures StripAliases(s) == s
  {
    forall p: nat ensures !MatchAt(s, p) {
      if MatchAt(s, p) {
        assert s[p..][..3] == s[p..p + 3];
        assert AsAt(s, p);
      }
    }
    StripUnchangedWithoutMatch(s);
  }

  /** Number of commas in a string. */
  function Commas(s: string): nat {
    multiset(s)[',']
  }

  lemma CommasConcat(a: string, b: string)
    ensures Commas(a + b) == Commas(a) + Commas(b)
  {
    assert multiset(a + b) == multiset(a) + multiset(b);
  }

  /** A match holds no comma before the end of its run. */
  lemma MatchedTextHasNoComma(s: string)
    requires StartsAlias(s)
    ensures Commas(s[..RunEnd(s)]) == 0
  {
    var e := RunEnd(s);
    assert s[..3] == "as ";
    forall k | 0 <= k < e ensures s[..e][k] != ',' {
      if k < 3 {
        assert s[..e][k] == s[..3][k];
      }
    }
    assert ',' !in s[..e];
  }

  /** The matched comma is put back by `\1`, so no comma is ever lost or added. */
  lemma {:induction false} StripKeepsCommas(s: string)
    ensures Commas(StripAliases(s)) == Commas(s)
    decreases |s|
  {
    if s == [] {
    } else if MatchesHere(s) {
      var e := RunEnd(s);
      assert s == s[..e] + s[e..];
      CommasConcat(s[..e], s[e..]);
      MatchedTextHasNoComma(s);
      if e < |s| && s[e] == ',' {
        var rest := s[e + 1..];
        assert s[e..] == [','] + rest;
        CommasConcat([','], rest);
        StripKeepsCommas(rest);
        CommasConcat([','], StripAliases(rest));
      }
    } else {
      assert s == [s[0]] + s[1..];
      CommasConcat([s[0]], s[1..]);
      StripKeepsCommas(s[1..]);
      CommasConcat([s[0]], StripAliases(s[1..]));
    }
  }

  // ---------------------------------------------------------------------------
  // Segment-wise characterisation, for headings without line breaks
  // (there `$` means the end of the string and the class excludes only `,`).

  predicate NoLineBreaks(s: string) {
    forall k :: 0 <= k < |s| ==> s[k] != '\n' && s[k] != '\r'
  }

  /** A match begins at position `p` of a heading without line breaks. */
  predicate AliasStart(s: string, p: nat) {
    p + 3 < |s| && s[p..p + 3] == "as " && s[p + 3] != ','
  }

  /** `AliasStart` spelled out character by character. */
  lemma AliasStartChars(s: string, p: nat)
    ensures AliasStart(s, p) <==>
      p + 3 < |s| && s[p] == 'a' && s[p + 1] == 's' && s[p + 2] == ' ' && s[p + 3] != ','
  {
    if p + 3 < |s| {
      assert s[p..p + 3][0] == s[p] && s[p..p + 3][1] == s[p + 1] && s[p..p + 3][2] == s[p + 2];
      if s[p] == 'a' && s[p + 1] == 's' && s[p + 2] == ' ' {
        assert s[p..p + 3] == "as ";
      }
    }
  }

  /** The first position at or after `i` where an alias starts, or `|s|`. */
  function FirstAlias(s: string, i: nat): (p: nat)
    requires i <= |s|
    ensures i <= p <= |s|
    ensures forall q: nat :: i <= q < p ==> !AliasStart(s, q)
    ensures p < |s| ==> AliasStart(s, p)
    decreases |s| - i
  {
    if i == |s| || AliasStart(s, i) then i else FirstAlias(s, i + 1)
  }

  /** The reference meaning of the substitution on one comma-free segment:
      everything from the first `as ` that has text after it is dropped. */
  function CutAlias(seg: string): string {
    seg[..FirstAlias(seg, 0)]
  }

  lemma StartsAliasAt(s: string, p: nat)
    requires p <= |s| && NoLineBreaks(s)
    ensures StartsAlias(s[p..]) <==> AliasStart(s, p)
  {
    if p + 3 < |s| {
      assert s[p..][..3] == s[p..p + 3];
      assert s[p..][3] == s[p + 3];
    }
  }

  /** In a comma-free segment without line breaks, a match runs to the end. */
  lemma RunEndOfSegment(s: string)
    requires ',' !in s && NoLineBreaks(s) && StartsAlias(s)
    ensures RunEnd(s) == |s|
  {
  }

  lemma {:induction false} StripSegmentFrom(seg: string, i: nat)
    requires ',' !in seg && NoLineBreaks(seg)
    requires i <= FirstAlias(seg, 0)
    ensures StripAliases(seg[i..]) == seg[i..FirstAlias(seg, 0)]
    decreases |seg| - i
  {
    var p := FirstAlias(seg, 0);
    var t := seg[i..];
    StartsAliasAt(seg, i);
    if i == |seg| {
    } else if i == p {
      assert StartsAlias(t);
      assert ',' !in t && NoLineBreaks(t) by {
        forall k | 0 <= k < |t| ensures t[k] == seg[i + k] && t[k] != ',' {
          assert seg[i + k] in seg;
        }
      }
      RunEndOfSegment(t);
    } else {
      assert !AliasStart(seg, i);
      assert !MatchesHere(t);
      assert t[1..] == seg[i + 1..];
      StripSegmentFrom(seg, i + 1);
    }
  }

  /** On a comma-free segment the substitution agrees with the reference cut. */
  lemma StripSegment(seg: string)
    requires ',' !in seg && NoLineBreaks(seg)
    ensures StripAliases(seg) == CutAlias(seg)
  {
    StripSegmentFrom(seg, 0);
    assert seg[0..] == seg;
  }

  /** A match at the head of `seg + [','] + rest` runs up to that comma. */
  lemma AliasBeforeComma(s: string, seg: string, rest: string)
    requires s == seg + [','] + rest
    requires ',' !in seg && NoLineBreaks(seg) && StartsAlias(s)
    ensures StartsAlias(seg) && RunEnd(s) == |seg| && s[|seg|] == ','
  {
    assert s[0] == 'a' && s[1] == 's' && s[2] == ' ' by {
      assert s[..3] == "as ";
      assert s[..3][0] == s[0] && s[..3][1] == s[1] && s[..3][2] == s[2];
    }
    assert s[|seg|] == ',' && s[3] != ',';
    assert |seg| > 3;
    assert seg[..3] == s[..3] && seg[3] == s[3];
    forall k | 3 <= k < |seg| ensures !Excluded(s[k]) {
      assert s[k] == seg[k];
      assert seg[k] in seg;
    }
  }

  /** A comma separates the work: the segment before it and the text after it
      are stripped independently, and the comma itself is kept. */
  lemma {:induction false} StripAtComma(s: string, seg: string, rest: string)
    requires s == seg + [','] + rest
    requires ',' !in seg && NoLineBreaks(seg)
    ensures StripAliases(s) == StripAliases(seg) + [','] + StripAliases(rest)
    decreases |seg|
  {
    if seg == [] {
      assert s == [','] + rest;
      assert !StartsAlias(s);
      assert s[1..] == rest;
    } else if StartsAlias(s) {
      AliasBeforeComma(s, seg, rest);
      RunEndOfSegment(seg);
      assert s[RunEnd(s) + 1..] == rest;
    } else {
      assert |seg| > 3 ==> seg[..3] == s[..3] && seg[3] == s[3];
      assert !StartsAlias(seg);
      assert seg[0] in seg;
      assert s[1..] == seg[1..] + [','] + rest;
      assert seg == [seg[0]] + seg[1..];
      assert ',' !in seg[1..];
      StripAtComma(s[1..], seg[1..], rest);
    }
  }

  /** The comma-separated segments of `s`, in order. */
  function SplitCommas(s: string): (parts: seq<string>)
    ensures |parts| >= 1
    ensures forall k :: 0 <= k < |parts| ==> ',' !in parts[k]
    decreases |s|
  {
    var i := Skip(s, 0, IsComma);
    assert forall k :: 0 <= k < i ==> s[..i][k] == s[k] && !IsComma(s[k]);
    assert ',' !in s[..i];
    if i == |s| then [s] else [s[..i]] + SplitCommas(s[i + 1..])
  }

  function JoinCommas(parts: seq<string>): string
    decreases |parts|
  {
    if parts == [] then []
    else if |parts| == 1 then parts[0]
    else parts[0] + [','] + JoinCommas(parts[1..])
  }

  /** Splitting loses nothing: joining the segments gives back the heading. */
  lemma {:induction false} JoinSplitCommas(s: string)
    ensures JoinCommas(SplitCommas(s)) == s
    decreases |s|
  {
    var i := Skip(s, 0, IsComma);
    if i < |s| {
      JoinSplitCommas(s[i + 1..]);
      assert s == s[..i] + [','] + s[i + 1..];
    }
  }

  /** The reference cut applied to every segment. */
  function CutEach(parts: seq<string>): (cut: seq<string>)
    ensures |cut| == |parts|
    decreases |parts|
  {
    if parts == [] then [] else [CutAlias(parts[0])] + CutEach(parts[1..])
  }

  /** A heading without line breaks is stripped segment by segment: the result
      is the heading's comma-separated segments, each cut at its first alias,
      joined again by the same commas. */
  lemma {:induction false} StripPerSegment(s: string)
    requires NoLineBreaks(s)
    ensures StripAliases(s) == JoinCommas(CutEach(SplitCommas(s)))
    decreases |s|
  {
    var i := Skip(s, 0, IsComma);
    var parts := SplitCommas(s);
    var seg := s[..i];
    assert ',' !in seg && NoLineBreaks(seg);
    StripSegment(seg);
    if i == |s| {
      assert seg == s;
    } else {
      var rest := s[i + 1..];
      assert s == seg + [','] + rest;
      assert NoLineBreaks(rest) by {
        forall k | 0 <= k < |rest| ensures rest[k] == s[i + 1 + k] {}
      }
      StripAtComma(s, seg, rest);
      StripPerSegment(rest);
      assert parts == [seg] + SplitCommas(rest);
      assert CutEach(parts) == [CutAlias(seg)] + CutEach(SplitCommas(rest));
    }
  }
  /** `a` is obtained from `b` by deleting characters, the rest kept in order. */
  predicate Subsequence(a: string, b: string)
    decreases |b|
  {
    if b == [] then a == []
    else (a != [] && a[0] == b[0] && Subsequence(a[1..], b[1..])) || Subsequence(a, b[1..])
  }

  lemma {:induction false} SubsequenceRefl(a: string)
    ensures Subsequence(a, a)
    decreases |a|
  {
    if a != [] {
      SubsequenceRefl(a[1..]);
    }
  }

  /** Text put in front of `b` may be deleted again. */
  lemma {:induction false} SubsequencePrefix(a: string, pre: string, b: string)
    requires Subsequence(a, b)
    ensures Subsequence(a, pre + b)
    decreases |pre|
  {
    if pre == [] {
      assert pre + b == b;
    } else {
      assert (pre + b)[1..] == pre[1..] + b;
      SubsequencePrefix(a, pre[1..], b);
    }
  }

  /** The substitution only deletes text: the result is the heading with some
      characters removed and the others in their original order. */
  lemma {:induction false} StripIsSubsequence(s: string)
    ensures Subsequence(StripAliases(s), s)
    decreases |s|
  {
    if s == [] {
    } else if MatchesHere(s) {
      var e := RunEnd(s);
      assert s == s[..e] + s[e..];
      if e < |s| && s[e] == ',' {
        var rest := s[e + 1..];
        var r := [','] + StripAliases(rest);
        StripIsSubsequence(rest);
        assert s[e..][1..] == rest && r[1..] == StripAliases(rest);
        assert Subsequence(r, s[e..]);
        SubsequencePrefix(r, s[..e], s[e..]);
      } else {
        SubsequenceRefl(s[e..]);
        SubsequencePrefix(s[e..], s[..e], s[e..]);
      }
    } else {
      var r := [s[0]] + StripAliases(s[1..]);
      StripIsSubsequence(s[1..]);
      assert r[1..] == StripAliases(s[1..]);
    }
  }

  /** Deleting characters adds none and repeats none. */
  lemma {:induction false} SubsequenceMultiset(a: string, b: string)
    requires Subsequence(a, b)
    ensures multiset(a) <= multiset(b)
    decreases |b|
  {
    if b != [] {
      assert b == [b[0]] + b[1..];
      assert multiset(b) == multiset([b[0]]) + multiset(b[1..]);
      if a != [] && a[0] == b[0] && Subsequence(a[1..], b[1..]) {
        assert a == [a[0]] + a[1..];
        assert multiset(a) == multiset([a[0]]) + multiset(a[1..]);
        SubsequenceMultiset(a[1..], b[1..]);
      } else {
        SubsequenceMultiset(a, b[1..]);
      }
    }
  }

  /** The substitution adds no character and repeats none: every character of
      the result comes from the heading, and none occurs more often than it did. */
  lemma StripOnlyDeletes(s: string)
    ensures multiset(StripAliases(s)) <= multiset(s)
  {
    StripIsSubsequence(s);
    SubsequenceMultiset(StripAliases(s), s);
  }

  /** Cutting a segment a second time removes nothing more. */
  lemma CutAliasIdempotent(seg: string)
    ensures CutAlias(CutAlias(seg)) == CutAlias(seg)
  {
    var p := FirstAlias(seg, 0);
    var c := seg[..p];
    forall q: nat | q < p ensures !AliasStart(c, q) {
      assert !AliasStart(seg, q);
      if q + 3 < p {
        assert c[q..q + 3] == seg[q..q + 3] && c[q + 3] == seg[q + 3];
      }
    }
    assert FirstAlias(c, 0) == p;
  }

  /** For headings without line breaks, stripping twice is stripping once: the
      GROUP BY headings already carry no alias that the pattern could remove. */
  lemma {:induction false} StripIdempotent(s: string)
    requires NoLineBreaks(s)
    ensures StripAliases(StripAliases(s)) == StripAliases(s)
    decreases |s|
  {
    var i := Skip(s, 0, IsComma);
    var seg := s[..i];
    var parts := SplitCommas(s);
    assert ',' !in seg && NoLineBreaks(seg);
    StripSegment(seg);
    var c := CutAlias(seg);
    assert ',' !in c && NoLineBreaks(c) by {
      forall k | 0 <= k < |c| ensures c[k] == seg[k] && c[k] != ',' {
        assert seg[k] in seg;
      }
    }
    StripSegment(c);
    CutAliasIdempotent(seg);
    if i == |s| {
      assert seg == s;
    } else {
      var rest := s[i + 1..];
      assert s == seg + [','] + rest;
      assert NoLineBreaks(rest) by {
        forall k | 0 <= k < |rest| ensures rest[k] == s[i + 1 + k] {}
      }
      StripAtComma(s, seg, rest);
      StripAtComma(StripAliases(s), c, StripAliases(rest));
      StripIdempotent(rest);
    }
  }

  // ---------------------------------------------------------------------------
  // Worked examples

  /** A segment in which no alias starts is left as it is. */
  lemma StripSegmentWithoutAlias(seg: string)
    requires ',' !in seg && NoLineBreaks(seg)
    requires forall p: nat :: p < |seg| ==> !AliasStart(seg, p)
    ensures StripAliases(seg) == seg
  {
    StripSegment(seg);
  }

  /** A segment is cut at the first position where an alias starts. */
  lemma StripSegmentAt(seg: string, p: nat)
    requires ',' !in seg && NoLineBreaks(seg)
    requires AliasStart(seg, p) && forall q: nat :: q < p ==> !AliasStart(seg, q)
    ensures StripAliases(seg) == seg[..p]
  {
    StripSegment(seg);
  }

  /** A single aliased heading keeps the space before `as`. */
  lemma ExampleOneHeading()
    ensures StripAliases("[year] as [Y]") == "[year] "
  {
    var s := "[year] as [Y]";
    forall q: nat | q <= 7 ensures AliasStart(s, q) <==> q == 7 {
      AliasStartChars(s, q);
    }
    StripSegmentAt(s, 7);
  }

  /** An alias is cut up to its comma; the comma and the space before `as` stay. */
  lemma ExampleTwoHeadings(s: string)
    requires s == "[year] as [Y], [type]"
    ensures StripAliases(s) == "[year] , [type]"
  {
    ExampleSplitsAtComma(s);
    ExampleOneHeading();
    ExamplePlainHeading();
    ExampleJoin(StripAliases("[year] as [Y]"), StripAliases(" [type]"));
  }

  /** The two headings of the example are stripped on either side of their comma. */
  lemma ExampleSplitsAtComma(s: string)
    requires s == "[year] as [Y], [type]"
    ensures StripAliases(s) == StripAliases("[year] as [Y]") + [','] + StripAliases(" [type]")
  {
    StripAtComma(s, "[year] as [Y]", " [type]");
  }

  /** The stripped halves of the example joined by their comma. */
  lemma ExampleJoin(a: string, b: string)
    requires a == "[year] " && b == " [type]"
    ensures a + [','] + b == "[year] , [type]"
  {
  }

  /** A heading without an alias is not touched. */
  lemma ExamplePlainHeading()
    ensures StripAliases(" [type]") == " [type]"
  {
    var s := " [type]";
    forall q: nat | q < |s| ensures !AliasStart(s, q) {
      AliasStartChars(s, q);
    }
    StripSegmentWithoutAlias(s);
  }

  /** Matching is case-sensitive: an upper-case `AS` is left in place. */
  lemma ExampleUpperCase()
    ensures StripAliases("[year] AS [Y]") == "[year] AS [Y]"
  {
    var s := "[year] AS [Y]";
    forall q: nat | q < |s| ensures !AliasStart(s, q) {
      AliasStartChars(s, q);
    }
    StripSegmentWithoutAlias(s);
  }

  /** An `as ` with nothing after it is not an alias and is not removed. */
  lemma ExampleTrailingAs()
    ensures StripAliases("[year] as ") == "[year] as "
  {
    var s := "[year] as ";
    forall q: nat | q < |s| ensures !AliasStart(s, q) {
      AliasStartChars(s, q);
    }
    StripSegmentWithoutAlias(s);
  }
}
