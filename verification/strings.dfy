/**
 The JavaScript string built-ins the fact-checker relies on, over `string` (a
 sequence of characters): `trim`, `toLowerCase`, `includes`, `indexOf` and
 `split` with a string separator.
 */
module Strings {

  /** The absent/present value `indexOf` encodes as -1 or an index. */
  datatype Option<T> = None | Some(value: T)

  /** ECMAScript WhiteSpace and LineTerminator code points: what `trim` removes. */
  predicate IsWhitespace(c: char) {
    || c == '\t' || c == '\n' || c == '\U{0B}' || c == '\U{0C}' || c == '\r' || c == ' '
    || c == '\U{A0}' || c == '\U{1680}' || ('\U{2000}' <= c <= '\U{200A}')
    || c == '\U{2028}' || c == '\U{2029}' || c == '\U{202F}' || c == '\U{205F}'
    || c == '\U{3000}' || c == '\U{FEFF}'
  }

  predicate AllWhitespace(s: string) {
    forall k :: 0 <= k < |s| ==> IsWhitespace(s[k])
  }

  /** Neither end of `s` is a whitespace character. */
  predicate IsTrimmed(s: string) {
    s == [] || (!IsWhitespace(s[0]) && !IsWhitespace(s[|s| - 1]))
  }

  function TrimStart(s: string): (r: string)
    ensures |r| <= |s| && r == s[|s| - |r|..]
    ensures AllWhitespace(s[..|s| - |r|])
    ensures r == [] || !IsWhitespace(r[0])
    decreases |s|
  {
    if s != [] && IsWhitespace(s[0]) then
      var r := TrimStart(s[1..]);
      DropDrop(s, 1, |s| - 1 - |r|);
      TakeAfterHead(s, |s| - |r|);
      AllWhitespaceConcat([s[0]], s[1..][..|s| - 1 - |r|]);
      r
    else s
  }

  function TrimEnd(s: string): (r: string)
    ensures |r| <= |s| && r == s[..|r|]
    ensures AllWhitespace(s[|r|..])
    ensures r == [] || !IsWhitespace(r[|r| - 1])
    decreases |s|
  {
    if s != [] && IsWhitespace(s[|s| - 1]) then
      var r := TrimEnd(s[..|s| - 1]);
      assert s[..|s| - 1][..|r|] == s[..|r|];
      assert s[|r|..] == s[..|s| - 1][|r|..] + [s[|s| - 1]];
      AllWhitespaceConcat(s[..|s| - 1][|r|..], [s[|s| - 1]]);
      r
    else s
  }

  lemma TakeAfterHead<T>(s: seq<T>, n: nat)
    requires 1 <= n <= |s|
    ensures s[..n] == [s[0]] + s[1..][..n - 1]
  {
  }

  lemma AllWhitespaceConcat(a: string, b: string)
    ensures AllWhitespace(a + b) <==> AllWhitespace(a) && AllWhitespace(b)
  {
    if AllWhitespace(a + b) {
      forall k | 0 <= k < |b| ensures IsWhitespace(b[k]) {
        assert b[k] == (a + b)[|a| + k];
      }
      forall k | 0 <= k < |a| ensures IsWhitespace(a[k]) {
        assert a[k] == (a + b)[k];
      }
    }
    if AllWhitespace(a) && AllWhitespace(b) {
      forall k | 0 <= k < |a + b| ensures IsWhitespace((a + b)[k]) {
        if k >= |a| {
          assert (a + b)[k] == b[k - |a|];
        }
      }
    }
  }

  /** `String.prototype.trim`. */
  function Trim(s: string): (r: string)
    ensures IsTrimmed(r)
    ensures |r| <= |s|
  {
    TrimEnd(TrimStart(s))
  }

  /** `r` is the slice of `s` starting at `i`, with only whitespace around it. */
  predicate IsPaddedSlice(s: string, r: string, i: nat) {
    i + |r| <= |s| && s[i..i + |r|] == r
    && AllWhitespace(s[..i]) && AllWhitespace(s[i + |r|..])
  }

  /** What `trim` keeps is a slice of `s` between two runs of whitespace, and
      nothing is kept exactly when `s` is all whitespace. */
  lemma TrimKeepsMiddle(s: string)
    ensures exists i: nat :: IsPaddedSlice(s, Trim(s), i)
    ensures Trim(s) == [] <==> AllWhitespace(s)
  {
    var t := TrimStart(s);
    var r := TrimEnd(t);
    var i := |s| - |t|;
    assert Trim(s) == r;
    assert s[i..i + |r|] == t[..|r|];
    assert s[i + |r|..] == t[|r|..];
    assert IsPaddedSlice(s, r, i);
    if r == [] {
      assert s == s[..i] + t[|r|..];
      AllWhitespaceConcat(s[..i], t[|r|..]);
    } else {
      assert !IsWhitespace(s[i]);
    }
  }

  /** A trimmed string is its own trim. */
  lemma TrimOfTrimmed(s: string)
    requires IsTrimmed(s)
    ensures Trim(s) == s
  {
  }

  lemma TrimIdempotent(s: string)
    ensures Trim(Trim(s)) == Trim(s)
  {
    TrimOfTrimmed(Trim(s));
  }

  lemma {:induction false} TrimStartPadded(pre: string, t: string)
    requires AllWhitespace(pre)
    requires t == [] || !IsWhitespace(t[0])
    ensures TrimStart(pre + t) == t
    decreases |pre|
  {
    if pre == [] {
      assert pre + t == t;
    } else {
      assert (pre + t)[1..] == pre[1..] + t;
      TrimStartPadded(pre[1..], t);
    }
  }

  lemma {:induction false} TrimEndPadded(t: string, post: string)
    requires AllWhitespace(post)
    requires t == [] || !IsWhitespace(t[|t| - 1])
    ensures TrimEnd(t + post) == t
    decreases |post|
  {
    if post == [] {
      assert t + post == t;
    } else {
      assert (t + post)[..|t + post| - 1] == t + post[..|post| - 1];
      TrimEndPadded(t, post[..|post| - 1]);
    }
  }

  /** Trimming removes exactly the whitespace padding around a trimmed text. */
  lemma TrimPadded(pre: string, s: string, post: string)
    requires AllWhitespace(pre) && AllWhitespace(post)
    requires IsTrimmed(s)
    ensures Trim(pre + s + post) == s
  {
    if s == [] {
      assert AllWhitespace(pre + s + post);
    } else {
      assert pre + s + post == pre + (s + post);
      TrimStartPadded(pre, s + post);
      TrimEndPadded(s, post);
    }
  }

  /** ASCII-only `toLowerCase` of one character. */
  function LowerChar(c: char): char {
    if 'A' <= c <= 'Z' then (c as int + ('a' as int - 'A' as int)) as char else c
  }

  predicate IsUpper(c: char) {
    'A' <= c <= 'Z'
  }

  /** `String.prototype.toLowerCase`, restricted to ASCII letters. */
  function ToLower(s: string): (r: string)
    ensures |r| == |s|
    ensures forall k :: 0 <= k < |s| ==> r[k] == LowerChar(s[k])
    ensures forall k :: 0 <= k < |r| ==> !IsUpper(r[k])
    decreases |s|
  {
    if s == [] then [] else [LowerChar(s[0])] + ToLower(s[1..])
  }

  lemma ToLowerIdempotent(s: string)
    ensures ToLower(ToLower(s)) == ToLower(s)
  {
    var t := ToLower(s);
    assert forall k :: 0 <= k < |t| ==> LowerChar(t[k]) == t[k];
  }

  /** `pat` occurs in `s` at index `i`. */
  predicate StartsAt(s: string, pat: string, i: nat) {
    i + |pat| <= |s| && s[i..i + |pat|] == pat
  }

  /** `String.prototype.includes`. */
  predicate Contains(s: string, pat: string) {
    exists i: nat :: i <= |s| && StartsAt(s, pat, i)
  }

  /** `i` is the first index at which `pat` occurs in `s`. */
  predicate IsFirstOccurrence(s: string, pat: string, i: nat) {
    StartsAt(s, pat, i) && forall j: nat :: j < i ==> !StartsAt(s, pat, j)
  }

  /** `s.indexOf(pat, from)`: the first occurrence of `pat` at or after `from`. */
  function IndexFrom(s: string, pat: string, from: nat): (r: Option<nat>)
    ensures r.Some? ==> from <= r.value && StartsAt(s, pat, r.value)
    ensures forall j: nat :: from <= j && (r.None? || j < r.value) ==> !StartsAt(s, pat, j)
    decreases |s| - from
  {
    if from + |pat| > |s| then None
    else if s[from..from + |pat|] == pat then Some(from)
    else IndexFrom(s, pat, from + 1)
  }

  /** `s.indexOf(pat)`. */
  function IndexOf(s: string, pat: string): (r: Option<nat>)
    ensures r.Some? ==> StartsAt(s, pat, r.value)
  {
    IndexFrom(s, pat, 0)
  }

  /** `indexOf` finds something exactly when `s.includes(pat)`, and then it is
      the first occurrence. */
  lemma IndexOfFirst(s: string, pat: string)
    ensures IndexOf(s, pat).Some? <==> Contains(s, pat)
    ensures IndexOf(s, pat).Some? ==> IsFirstOccurrence(s, pat, IndexOf(s, pat).value)
  {
  }

  /** An occurrence of `pre + pat` contains an occurrence of `pat`. */
  lemma ContainsSuffixOfPattern(s: string, pre: string, pat: string)
    requires Contains(s, pre + pat)
    ensures Contains(s, pat)
  {
    var i: nat :| i <= |s| && StartsAt(s, pre + pat, i);
    var j := i + |pre|;
    assert s[j..j + |pat|] == s[i..i + |pre + pat|][|pre|..];
    assert StartsAt(s, pat, j);
  }

  /** The negated words "incorrect" and "inaccurate" contain the words they
      negate, so `includes` finds those too. */
  lemma NegationsContainRoots(s: string)
    ensures Contains(s, "incorrect") ==> Contains(s, "correct")
    ensures Contains(s, "inaccurate") ==> Contains(s, "accurate")
  {
    assert "incorrect" == "in" + "correct";
    assert "inaccurate" == "in" + "accurate";
    if Contains(s, "incorrect") {
      ContainsSuffixOfPattern(s, "in", "correct");
    }
    if Contains(s, "inaccurate") {
      ContainsSuffixOfPattern(s, "in", "accurate");
    }
  }

  /** An occurrence inside a prefix of `s` is an occurrence in `s`. */
  lemma StartsAtPrefix(s: string, n: nat, pat: string, j: nat)
    requires n <= |s|
    requires StartsAt(s[..n], pat, j)
    ensures StartsAt(s, pat, j)
  {
    assert s[..n][j..j + |pat|] == s[j..j + |pat|];
  }

  /** An occurrence inside a suffix of `s` is an occurrence in `s`. */
  lemma StartsAtSuffix(s: string, n: nat, pat: string, j: nat)
    requires n <= |s|
    ensures StartsAt(s[n..], pat, j) <==> StartsAt(s, pat, n + j)
  {
    if j + |pat| <= |s| - n {
      assert s[n..][j..j + |pat|] == s[n + j..n + j + |pat|];
    }
  }

  /** `pieces.join(sep)`. */
  function Join(pieces: seq<string>, sep: string): string
    decreases |pieces|
  {
    if |pieces| == 0 then []
    else if |pieces| == 1 then pieces[0]
    else pieces[0] + sep + Join(pieces[1..], sep)
  }

  /** `s.split(sep)` for a non-empty separator: cut at each occurrence of
      `sep`, scanning left to right from the end of the previous cut. */
  function Split(s: string, sep: string): (r: seq<string>)
    requires |sep| > 0
    ensures |r| >= 1
    decreases |s|
  {
    match IndexOf(s, sep)
    case None => [s]
    case Some(i) =>
      [s[..i]] + Split(s[i + |sep|..], sep)
  }

  lemma DropDrop<T>(s: seq<T>, a: nat, b: nat)
    requires a + b <= |s|
    ensures s[a..][b..] == s[a + b..]
  {
  }

  lemma DropHead<T>(x: T, xs: seq<T>)
    ensures ([x] + xs)[1..] == xs
  {
  }

  /** An occurrence of `sep` at `i` cuts `s` into before, `sep` and after. */
  lemma CutAt(s: string, sep: string, i: nat)
    requires StartsAt(s, sep, i)
    ensures s == s[..i] + sep + s[i + |sep|..]
  {
  }

  lemma JoinCons(p: string, rs: seq<string>, sep: string)
    requires |rs| > 0
    ensures Join([p] + rs, sep) == p + sep + Join(rs, sep)
  {
    DropHead(p, rs);
  }

  /** One step of the split: the piece before the first occurrence, then the split of the rest. */
  lemma SplitStep(s: string, sep: string, i: nat)
    requires |sep| > 0
    requires IndexOf(s, sep) == Some(i)
    ensures i + |sep| <= |s|
    ensures Split(s, sep) == [s[..i]] + Split(s[i + |sep|..], sep)
  {
  }

  /** Joining the pieces of a split with its separator gives back the string. */
  lemma {:induction false} SplitJoin(s: string, sep: string)
    requires |sep| > 0
    ensures Join(Split(s, sep), sep) == s
    decreases |s|
  {
    match IndexOf(s, sep)
    case None =>
    case Some(i) =>
      var rest := s[i + |sep|..];
      SplitStep(s, sep, i);
      JoinCons(s[..i], Split(rest, sep), sep);
      SplitJoin(rest, sep);
      CutAt(s, sep, i);
  }

  /** No piece of a split contains the separator. */
  lemma {:induction false} SplitPiecesAvoidSeparator(s: string, sep: string)
    requires |sep| > 0
    ensures forall k :: 0 <= k < |Split(s, sep)| ==> !Contains(Split(s, sep)[k], sep)
    decreases |s|
  {
    match IndexOf(s, sep)
    case None =>
    case Some(i) =>
      var rest := s[i + |sep|..];
      IndexOfFirst(s, sep);
      SplitStep(s, sep, i);
      SplitPiecesAvoidSeparator(rest, sep);
      if Contains(s[..i], sep) {
        var j: nat :| j <= i && StartsAt(s[..i], sep, j);
        StartsAtPrefix(s, i, sep, j);
        assert false;
      }
  }

  /** A string without the separator is a single piece; otherwise the first
      piece is the prefix that ends where the first occurrence begins. */
  lemma SplitFirstPiece(s: string, sep: string)
    requires |sep| > 0
    ensures !Contains(s, sep) <==> Split(s, sep) == [s]
    ensures Contains(s, sep) ==> IsFirstOccurrence(s, sep, |Split(s, sep)[0]|)
    ensures Split(s, sep)[0] == s[..|Split(s, sep)[0]|]
  {
  }

  /** Joining is associative with the separator: the last piece can be split off. */
  lemma {:induction false} JoinSnoc(ps: seq<string>, sep: string)
    requires |ps| > 1
    ensures Join(ps, sep) == Join(ps[..|ps| - 1], sep) + sep + ps[|ps| - 1]
    decreases |ps|
  {
    if |ps| > 2 {
      JoinSnoc(ps[1..], sep);
      assert ps[..|ps| - 1][1..] == ps[1..][..|ps| - 2];
    }
  }

  /** Every piece but the last is followed in `s` by the separator, so the
      last piece is the suffix after the join of the others plus the separator. */
  lemma SplitLastPiece(s: string, sep: string)
    requires |sep| > 0
    requires |Split(s, sep)| > 1
    ensures var ps := Split(s, sep);
            s == Join(ps[..|ps| - 1], sep) + sep + ps[|ps| - 1]
  {
    SplitJoin(s, sep);
    JoinSnoc(Split(s, sep), sep);
  }

  /** The last piece of a split is a suffix of the string, so no longer than it. */
  lemma SplitLastFits(s: string, sep: string)
    requires |sep| > 0
    ensures var ps := Split(s, sep);
            |ps[|ps| - 1]| <= |s| && s[|s| - |ps[|ps| - 1]|..] == ps[|ps| - 1]
  {
    var ps := Split(s, sep);
    var last := ps[|ps| - 1];
    if |ps| > 1 {
      SplitLastPiece(s, sep);
      SuffixOfConcat(Join(ps[..|ps| - 1], sep) + sep, last);
    } else {
      SplitFirstPiece(s, sep);
    }
  }

  lemma SuffixOfConcat(a: string, b: string)
    ensures (a + b)[|a + b| - |b|..] == b && (a + b)[..|a + b| - |b|] == a
  {
  }
}
