/**
 The citation sanitiser `cleanText` of the backend: one global pass of the
 regular expression `\[\d+\](?:\[\d+\])*` replacing every match with the
 empty string, followed by `trim`.
 */
module Sanitizer {
  import opened Strings

  /** `\d` without the `u` flag: the ASCII decimal digits. */
  predicate IsDigit(c: char) {
    '0' <= c <= '9'
  }

  /** A citation group: `[`, one or more decimal digits, `]`. */
  predicate IsGroup(g: string) {
    |g| >= 3 && g[0] == '[' && g[|g| - 1] == ']'
    && forall k :: 1 <= k < |g| - 1 ==> IsDigit(g[k])
  }

  /** Length of the longest prefix of `s` made of digits (what greedy `\d+` consumes). */
  function DigitRun(s: string): (n: nat)
    ensures n <= |s|
    ensures forall k :: 0 <= k < n ==> IsDigit(s[k])
    ensures n < |s| ==> !IsDigit(s[n])
    decreases |s|
  {
    if |s| > 0 && IsDigit(s[0]) then 1 + DigitRun(s[1..]) else 0
  }

  /** Length of the citation group `\[\d+\]` that starts `s`, or 0 when none
      does. At most one prefix of a string is a group, and this is its length. */
  function GroupLen(s: string): (n: nat)
    ensures n <= |s|
    ensures n > 0 ==> IsGroup(s[..n])
  {
    if |s| > 0 && s[0] == '[' then
      var d := DigitRun(s[1..]);
      GroupAfterBracket(s, d);
      if d > 0 && 1 + d < |s| && s[1 + d] == ']' then d + 2 else 0
    else 0
  }

  /** Every group that starts `s` is the one `GroupLen` measures. */
  lemma GroupLenUnique(s: string, m: nat)
    requires m <= |s| && IsGroup(s[..m])
    ensures GroupLen(s) == m
  {
    GroupAfterBracket(s, DigitRun(s[1..]));
  }

  /** When `s` starts with `[` followed by a digit run of length `d`, the
      only prefix of `s` that can be a group has length `d + 2`, and it is
      one exactly when `d > 0` and a `]` follows the digits. */
  lemma GroupAfterBracket(s: string, d: nat)
    requires |s| > 0 && s[0] == '['
    requires d == DigitRun(s[1..])
    ensures forall m :: 0 <= m <= |s| && IsGroup(s[..m]) ==> m == d + 2 && s[1 + d] == ']'
    ensures d > 0 && 1 + d < |s| && s[1 + d] == ']' ==> IsGroup(s[..d + 2])
  {
    var t := s[1..];
    forall m | 0 <= m <= |s| && IsGroup(s[..m])
      ensures m == d + 2 && s[1 + d] == ']'
    {
      var g := s[..m];
      forall k | 0 <= k < m - 2 ensures IsDigit(t[k]) {
        assert g[k + 1] == t[k];
      }
      assert g[m - 1] == s[m - 1];
    }
    if d > 0 && 1 + d < |s| && s[1 + d] == ']' {
      var g := s[..d + 2];
      forall k | 1 <= k < |g| - 1 ensures IsDigit(g[k]) {
        assert g[k] == t[k - 1];
      }
    }
  }

  /** `s` has a citation group starting at index `i`. */
  predicate GroupAt(s: string, i: nat) {
    i < |s| && GroupLen(s[i..]) > 0
  }

  /** Some citation group occurs in `s`. */
  predicate HasCitation(s: string) {
    exists i: nat :: i < |s| && GroupAt(s, i)
  }

  /** `r` is one or more adjacent citation groups: what `\[\d+\](?:\[\d+\])*`
      can match. */
  predicate IsRun(r: string)
    decreases |r|
  {
    exists m :: 0 < m <= |r| && IsGroup(r[..m]) && (m == |r| || IsRun(r[m..]))
  }

  /** Length of the match of `\[\d+\](?:\[\d+\])*` at the start of `s`, or 0:
      a maximal run of adjacent groups, since the starred part is greedy. */
  function RunLen(s: string): (n: nat)
    ensures n <= |s|
    ensures n > 0 <==> GroupLen(s) > 0
    ensures n > 0 ==> IsRun(s[..n])
    decreases |s|
  {
    var g := GroupLen(s);
    if g == 0 then 0
    else
      var k := RunLen(s[g..]);
      GroupThenRun(s, g, k);
      g + k
  }

  /** A group followed by a run, or by nothing, is a run. */
  lemma GroupThenRun(s: string, g: nat, k: nat)
    requires 0 < g && g + k <= |s| && IsGroup(s[..g])
    requires k > 0 ==> IsRun(s[g..][..k])
    ensures IsRun(s[..g + k])
  {
    var r := s[..g + k];
    assert r[..g] == s[..g];
    assert r[g..] == s[g..][..k];
  }

  /** The run is maximal: no group starts right after it. */
  lemma {:induction false} RunIsMaximal(s: string)
    ensures GroupLen(s[RunLen(s)..]) == 0
    decreases |s|
  {
    var g := GroupLen(s);
    if g > 0 {
      RunIsMaximal(s[g..]);
      DropDrop(s, g, RunLen(s[g..]));
    }
  }

  /** `s.replace(/\[\d+\](?:\[\d+\])*\/g, '')`: scan left to right; where a
      match starts, drop it and resume after it, otherwise keep the character. */
  function RemoveCitationRuns(s: string): (r: string)
    ensures |r| <= |s|
    decreases |s|
  {
    if |s| == 0 then []
    else
      var n := RunLen(s);
      if n > 0 then RemoveCitationRuns(s[n..]) else [s[0]] + RemoveCitationRuns(s[1..])
  }

  /** The same pass with the simpler expression `\[\d+\]`: drop one group at a time. */
  function RemoveGroups(s: string): string
    decreases |s|
  {
    if |s| == 0 then []
    else
      var g := GroupLen(s);
      if g > 0 then RemoveGroups(s[g..]) else [s[0]] + RemoveGroups(s[1..])
  }

  /** Removing maximal runs in one pass equals removing single groups in one
      pass: the `(?:\[\d+\])*` tail of the expression changes nothing. */
  lemma {:induction false} RunsAreGroups(s: string)
    ensures RemoveCitationRuns(s) == RemoveGroups(s)
    decreases |s|
  {
    if |s| > 0 {
      var g := GroupLen(s);
      if g == 0 {
        KeepStep(s);
        RunsAreGroups(s[1..]);
      } else {
        var t := s[g..];
        var m := RunLen(t);
        RunsAreGroups(t);
        RunStep(s);
        if m > 0 {
          RunStep(t);
          DropDrop(s, g, m);
          var u := t[m..];
          assert RemoveCitationRuns(s) == RemoveCitationRuns(u);
          assert RemoveCitationRuns(t) == RemoveCitationRuns(u);
        }
      }
    }
  }

  /** Where no group starts, both passes keep the first character. */
  lemma KeepStep(s: string)
    requires |s| > 0 && GroupLen(s) == 0
    ensures RemoveCitationRuns(s) == [s[0]] + RemoveCitationRuns(s[1..])
    ensures RemoveGroups(s) == [s[0]] + RemoveGroups(s[1..])
  {
  }

  /** Where a group starts, the pass drops the whole run at once, and the
      run is that group followed by the run after it. */
  lemma RunStep(s: string)
    requires GroupLen(s) > 0
    ensures RunLen(s) == GroupLen(s) + RunLen(s[GroupLen(s)..])
    ensures RemoveCitationRuns(s) == RemoveCitationRuns(s[RunLen(s)..])
    ensures RemoveGroups(s) == RemoveGroups(s[GroupLen(s)..])
  {
  }

  /** Deleting a group in front of any text leaves the pass over that text. */
  lemma GroupVanishes(g: string, rest: string)
    requires IsGroup(g)
    ensures RemoveGroups(g + rest) == RemoveGroups(rest)
  {
    var s := g + rest;
    assert s[..|g|] == g;
    GroupLenUnique(s, |g|);
    assert (g + rest)[|g|..] == rest;
  }

  /** Text without any group is left as it is by the pass. */
  lemma {:induction false} NoCitationUnchanged(s: string)
    requires !HasCitation(s)
    ensures RemoveCitationRuns(s) == s
    decreases |s|
  {
    if |s| > 0 {
      assert !GroupAt(s, 0);
      forall i: nat | i < |s| - 1 ensures !GroupAt(s[1..], i) {
        assert s[1..][i..] == s[i + 1..];
        assert !GroupAt(s, i + 1);
      }
      NoCitationUnchanged(s[1..]);
    }
  }

  /** Text with a group gets strictly shorter. */
  lemma {:induction false} CitationShortens(s: string, i: nat)
    requires GroupAt(s, i)
    ensures |RemoveCitationRuns(s)| < |s|
    decreases i
  {
    if RunLen(s) == 0 {
      assert i != 0;
      assert s[1..][i - 1..] == s[i..];
      CitationShortens(s[1..], i - 1);
    }
  }

  /** The pass changes a text exactly when it holds a citation group. */
  lemma RemovalChangesExactlyCitedText(s: string)
    ensures RemoveCitationRuns(s) == s <==> !HasCitation(s)
  {
    if HasCitation(s) {
      var i: nat :| i < |s| && GroupAt(s, i);
      CitationShortens(s, i);
    } else {
      NoCitationUnchanged(s);
    }
  }

  /** `cleanText`: the citation pass followed by `trim`. */
  function CleanText(s: string): (r: string)
    ensures IsTrimmed(r)
    ensures |r| <= |s|
    ensures !HasCitation(s) ==> r == Trim(s)
  {
    RemovalChangesExactlyCitedText(s);
    Trim(RemoveCitationRuns(s))
  }

  /** Text without `[` has no citation. */
  lemma NoBracketNoCitation(s: string)
    requires forall k :: 0 <= k < |s| ==> s[k] != '['
    ensures !HasCitation(s)
  {
    forall i: nat | i < |s| ensures !GroupAt(s, i) {
      assert s[i..][0] == s[i];
    }
  }

  /** Text without `[` and without surrounding whitespace is a fixed point. */
  lemma CleanPlainText(s: string)
    requires forall k :: 0 <= k < |s| ==> s[k] != '['
    requires IsTrimmed(s)
    ensures CleanText(s) == s
  {
    NoBracketNoCitation(s);
    TrimOfTrimmed(s);
  }

  /** Text without `[` in front of any text is kept by the pass. */
  lemma {:induction false} PlainPrefixKept(p: string, rest: string)
    requires forall k :: 0 <= k < |p| ==> p[k] != '['
    ensures RemoveGroups(p + rest) == p + RemoveGroups(rest)
    decreases |p|
  {
    if |p| > 0 {
      var s := p + rest;
      assert s[0] == p[0];
      assert s[1..] == p[1..] + rest;
      assert GroupLen(s) == 0;
      assert RemoveGroups(s) == [s[0]] + RemoveGroups(s[1..]);
      PlainPrefixKept(p[1..], rest);
      assert p + RemoveGroups(rest) == [p[0]] + (p[1..] + RemoveGroups(rest));
    } else {
      assert p + rest == rest;
    }
  }

  /** Text without `[` is kept whole by the pass. */
  lemma PlainKept(p: string)
    requires forall k :: 0 <= k < |p| ==> p[k] != '['
    ensures RemoveGroups(p) == p
  {
    PlainPrefixKept(p, []);
    assert p + [] == p;
  }

  /** A lone citation group cleans to nothing. */
  lemma GroupCleansAway(g: string)
    requires IsGroup(g)
    ensures CleanText(g) == []
  {
    ConcatEmpty(g);
    GroupVanishes(g, []);
    RunsAreGroups(g);
    assert RemoveCitationRuns(g) == [];
  }

  /** `[d]` and `d]` for a digit string `d`: a group and a bracket-free text. */
  lemma DigitPieces(d: string)
    requires |d| > 0 && forall k :: 0 <= k < |d| ==> IsDigit(d[k])
    ensures IsGroup("[" + d + "]")
    ensures forall k :: 0 <= k < |d + "]"| ==> (d + "]")[k] != '['
  {
    var g := "[" + d + "]";
    forall k | 1 <= k < |g| - 1 ensures IsDigit(g[k]) {
      assert g[k] == d[k - 1];
    }
    var t := d + "]";
    forall k | 0 <= k < |t| ensures t[k] != '[' {
      if k < |d| {
        assert t[k] == d[k];
      }
    }
  }

  /** In `[[d]d]` the only group is the inner `[d]`; removing it leaves `[d]`. */
  lemma NestedGroupCleans(d: string)
    requires |d| > 0 && forall k :: 0 <= k < |d| ==> IsDigit(d[k])
    ensures CleanText("[" + (("[" + d + "]") + (d + "]"))) == "[" + d + "]"
  {
    var g := "[" + d + "]";
    var t := d + "]";
    var s := "[" + (g + t);
    DigitPieces(d);
    assert RemoveGroups(s) == "[" + RemoveGroups(g + t) by {
      BracketBeforeBracket(g + t);
      KeptHead('[', g + t);
    }
    assert RemoveGroups(g + t) == t by {
      GroupVanishes(g, t);
      PlainKept(t);
    }
    assert RemoveCitationRuns(s) == g by {
      RunsAreGroups(s);
      ConcatAssoc3("[", d, "]");
    }
    TrimOfTrimmed(g);
  }

  /** The pass is single, so cleaning is not idempotent: removing the inner
      group of `[[d]d]` exposes the new group `[d]`, which a second cleaning
      removes (`[[1]1]` gives `[1]`, then the empty string). */
  lemma CleanTextNotIdempotent(d: string)
    requires |d| > 0 && forall k :: 0 <= k < |d| ==> IsDigit(d[k])
    ensures var s := "[" + (("[" + d + "]") + (d + "]"));
            CleanText(s) == "[" + d + "]" && CleanText(CleanText(s)) == []
  {
    NestedGroupCleans(d);
    DigitPieces(d);
    GroupCleansAway("[" + d + "]");
  }

  /** `[[` never starts a group. */
  lemma BracketBeforeBracket(x: string)
    requires |x| > 0 && x[0] == '['
    ensures GroupLen("[" + x) == 0
  {
    var s := "[" + x;
    DropHead('[', x);
    assert s[1..][0] == '[';
  }

  /** A character that starts no group is kept, and the pass goes on after it. */
  lemma KeptHead(c: char, x: string)
    requires GroupLen([c] + x) == 0
    ensures RemoveGroups([c] + x) == [c] + RemoveGroups(x)
  {
    DropHead(c, x);
  }

  lemma ConcatEmpty(a: string)
    ensures a + [] == a
  {
  }

  lemma ConcatAssoc3(a: string, b: string, c: string)
    ensures a + (b + c) == a + b + c
  {
  }

  lemma ConcatAssoc4(a: string, b: string, c: string, d: string)
    ensures a + b + c + d == a + (b + (c + d))
  {
  }

  /** Two adjacent groups between bracket-free texts are removed and the
      texts around them are joined unchanged. */
  lemma GroupsBetweenPlainText(p: string, g1: string, g2: string, q: string)
    requires forall k :: 0 <= k < |p| ==> p[k] != '['
    requires forall k :: 0 <= k < |q| ==> q[k] != '['
    requires IsGroup(g1) && IsGroup(g2)
    ensures RemoveCitationRuns(p + g1 + g2 + q) == p + q
  {
    var tail := g2 + q;
    var mid := g1 + tail;
    ConcatAssoc4(p, g1, g2, q);
    var s := p + mid;
    RunsAreGroups(s);
    PlainPrefixKept(p, mid);
    assert RemoveGroups(s) == p + RemoveGroups(mid);
    GroupVanishes(g1, tail);
    GroupVanishes(g2, q);
    PlainKept(q);
    assert RemoveGroups(mid) == q;
  }

  /** A citation run between two words disappears and leaves the words and
      the spaces around it: `foo [1][2] bar` cleans to `foo  bar`. */
  lemma CleanTextRemovesRunBetweenWords(p: string, g1: string, g2: string, q: string)
    requires forall k :: 0 <= k < |p| ==> p[k] != '['
    requires forall k :: 0 <= k < |q| ==> q[k] != '['
    requires IsGroup(g1) && IsGroup(g2)
    ensures CleanText(p + g1 + g2 + q) == Trim(p + q)
  {
    GroupsBetweenPlainText(p, g1, g2, q);
  }
}
