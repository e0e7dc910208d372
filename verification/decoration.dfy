/**
 Stripping of the comment decoration that starts every line of a `///` comment.

 The decoration is what the scanner `skip_comment` steps over: blanks, then at most one
 run of slashes, then blanks again, i.e. the shape `[ \t]* ('/'+ [ \t]*)?`. The shape is
 given here independently as a three-state recogniser, and the scanner is proved to stop
 exactly at the end of the longest prefix the recogniser accepts.
 */
module Decoration {
  import opened Wrappers

  predicate IsBlank(c: char) {
    c == ' ' || c == '\t'
  }

  /** The only characters a decoration may contain. */
  predicate IsDecorationChar(c: char) {
    IsBlank(c) || c == '/'
  }

  /** Where the recogniser is: before, inside, or after the run of slashes. */
  datatype Phase = Leading | Slashes | Trailing

  /** One transition of the recogniser for `[ \t]* ('/'+ [ \t]*)?`; `None` rejects. */
  function Step(p: Phase, c: char): Option<Phase> {
    match p
    case Leading =>
      if IsBlank(c) then Some(Leading) else if c == '/' then Some(Slashes) else None
    case Slashes =>
      if c == '/' then Some(Slashes) else if IsBlank(c) then Some(Trailing) else None
    case Trailing =>
      if IsBlank(c) then Some(Trailing) else None
  }

  /** Runs the recogniser from phase `p` over all of `d`. */
  function Run(p: Phase, d: string): Option<Phase>
    decreases |d|
  {
    if |d| == 0 then Some(p)
    else
      match Step(p, d[0])
      case None => None
      case Some(q) => Run(q, d[1..])
  }

  /** `d` has the shape of a comment decoration. Every phase is accepting. */
  predicate IsDecoration(d: string) {
    Run(Leading, d).Some?
  }

  /** Length of the longest prefix of `d` the recogniser accepts from phase `p`. */
  function LongestFrom(p: Phase, d: string): (n: nat)
    ensures n <= |d|
    decreases |d|
  {
    if |d| == 0 then 0
    else
      match Step(p, d[0])
      case None => 0
      case Some(q) => 1 + LongestFrom(q, d[1..])
  }

  /** Length of the decoration at the start of `d` (reference definition). */
  function DecorationLength(d: string): nat {
    LongestFrom(Leading, d)
  }

  /** The recogniser never accepts a character outside blanks and slashes. */
  lemma StepOnlyDecorationChars(p: Phase, c: char)
    ensures Step(p, c).Some? ==> IsDecorationChar(c)
    ensures IsBlank(c) ==> Step(p, c).Some?
  {
  }

  lemma {:induction false} LongestFromIsLongest(p: Phase, d: string)
    ensures Run(p, d[..LongestFrom(p, d)]).Some?
    ensures LongestFrom(p, d) < |d| ==> Run(p, d[..LongestFrom(p, d) + 1]).None?
    decreases |d|
  {
    if |d| == 0 {
    } else {
      match Step(p, d[0])
      case None =>
        assert d[..1][0] == d[0];
      case Some(q) =>
        var n := LongestFrom(q, d[1..]);
        LongestFromIsLongest(q, d[1..]);
        assert d[..n + 1][1..] == d[1..][..n];
        if n + 1 < |d| {
          assert d[..n + 2][1..] == d[1..][..n + 1];
        }
    }
  }

  /** The reference length picks out the longest prefix of decoration shape. */
  lemma DecorationLengthIsLongestDecoration(d: string)
    ensures IsDecoration(d[..DecorationLength(d)])
    ensures DecorationLength(d) < |d| ==> !IsDecoration(d[..DecorationLength(d) + 1])
  {
    LongestFromIsLongest(Leading, d);
  }

  /** A character the recogniser rejects in every phase ends the decoration: the
      decoration of `u` is the decoration of `u` cut at such a character. */
  lemma {:induction false} LongestFromStopsAt(p: Phase, u: string, k: nat)
    requires k < |u| && !IsDecorationChar(u[k])
    ensures LongestFrom(p, u) == LongestFrom(p, u[..k])
    ensures LongestFrom(p, u) <= k
    decreases k
  {
    StepOnlyDecorationChars(p, u[0]);
    if k == 0 {
    } else {
      match Step(p, u[0])
      case None =>
      case Some(q) =>
        assert u[..k][1..] == u[1..][..k - 1];
        LongestFromStopsAt(q, u[1..], k - 1);
    }
  }

  lemma DecorationStopsAt(u: string, k: nat)
    requires k < |u| && !IsDecorationChar(u[k])
    ensures DecorationLength(u) == DecorationLength(u[..k])
    ensures DecorationLength(u) <= k
  {
    LongestFromStopsAt(Leading, u, k);
  }

  /** Everything accepted as decoration consists of blanks and slashes. */
  lemma {:induction false} RunOnlyDecorationChars(p: Phase, d: string)
    requires Run(p, d).Some?
    ensures forall k :: 0 <= k < |d| ==> IsDecorationChar(d[k])
    decreases |d|
  {
    if |d| > 0 {
      StepOnlyDecorationChars(p, d[0]);
      RunOnlyDecorationChars(Step(p, d[0]).value, d[1..]);
      forall k | 1 <= k < |d|
        ensures IsDecorationChar(d[k])
      {
        assert d[k] == d[1..][k - 1];
      }
    }
  }

  /** What skipping the decoration at index `i` means, stated over the source string. */
  lemma SkippedDecoration(s: string, i: nat, r: nat)
    requires i <= |s| && r == i + DecorationLength(s[i..])
    ensures r <= |s|
    ensures IsDecoration(s[i..r])
    ensures r < |s| ==> !IsDecoration(s[i..r + 1])
    ensures forall k :: i <= k < r ==> IsDecorationChar(s[k])
    ensures r < |s| ==> !IsBlank(s[r])
  {
    DecorationLengthIsLongestDecoration(s[i..]);
    assert s[i..][..r - i] == s[i..r];
    RunOnlyDecorationChars(Leading, s[i..r]);
    forall k | i <= k < r
      ensures IsDecorationChar(s[k])
    {
      assert s[k] == s[i..r][k - i];
    }
    if r < |s| {
      assert s[i..][..r - i + 1] == s[i..r + 1];
      assert s[i..r + 1] == s[i..r] + [s[r]];
      StepOnlyDecorationChars(Run(Leading, s[i..r]).value, s[r]);
      RunAppend(Leading, s[i..r], s[r]);
    }
  }

  /** One of the scanner's loops over blanks, in a phase where the recogniser loops on
      blanks: it passes blanks only, up to the first character that is not one. */
  method SkipBlanks(s: string, j: nat, ghost p: Phase) returns (k: nat)
    requires j <= |s| && p != Slashes
    ensures j <= k <= |s|
    ensures forall m :: j <= m < k ==> IsBlank(s[m])
    ensures k < |s| ==> !IsBlank(s[k])
    ensures k + LongestFrom(p, s[k..]) == j + LongestFrom(p, s[j..])
  {
    k := j;
    while k < |s| && IsBlank(s[k])
      invariant j <= k <= |s|
      invariant forall m :: j <= m < k ==> IsBlank(s[m])
      invariant k + LongestFrom(p, s[k..]) == j + LongestFrom(p, s[j..])
    {
      assert s[k..][1..] == s[k + 1..];
      k := k + 1;
    }
  }

  /** The scanner's loop over slashes, inside the run of slashes: it passes slashes only,
      up to the first character that is not one. */
  method SkipSlashes(s: string, j: nat) returns (k: nat)
    requires j <= |s|
    ensures j <= k <= |s|
    ensures forall m :: j <= m < k ==> s[m] == '/'
    ensures k < |s| ==> s[k] != '/'
    ensures k + LongestFrom(Trailing, s[k..]) == j + LongestFrom(Slashes, s[j..])
  {
    k := j;
    while k < |s| && s[k] == '/'
      invariant j <= k <= |s|
      invariant forall m :: j <= m < k ==> s[m] == '/'
      invariant k + LongestFrom(Slashes, s[k..]) == j + LongestFrom(Slashes, s[j..])
    {
      assert s[k..][1..] == s[k + 1..];
      k := k + 1;
    }
    if k < |s| {
      assert s[k..][1..] == s[k + 1..];
    }
  }

  /**
   The scanner of the source: skip blanks, then, only if a slash follows, all slashes and
   the blanks after them. It starts at index `i` of `s` and returns the index it stops at.
   */
  method SkipComment(s: string, i: nat) returns (r: nat)
    requires i <= |s|
    ensures i <= r <= |s|
    ensures r == i + DecorationLength(s[i..])
    ensures IsDecoration(s[i..r])
    ensures r < |s| ==> !IsDecoration(s[i..r + 1])
    ensures forall k :: i <= k < r ==> IsDecorationChar(s[k])
    ensures r < |s| ==> !IsBlank(s[r])
  {
    r := SkipBlanks(s, i, Leading);
    if r < |s| && s[r] == '/' {
      assert s[r..][1..] == s[r + 1..];
      r := SkipSlashes(s, r + 1);
      r := SkipBlanks(s, r, Trailing);
    }
    SkippedDecoration(s, i, r);
  }

  /** Running over one more character is one more step. */
  lemma {:induction false} RunAppend(p: Phase, d: string, c: char)
    ensures Run(p, d + [c]) == (match Run(p, d) case None => None case Some(q) => Step(q, c))
    decreases |d|
  {
    if |d| == 0 {
      assert [c][1..] == [];
    } else {
      assert (d + [c])[1..] == d[1..] + [c];
      match Step(p, d[0])
      case None =>
      case Some(q) => RunAppend(q, d[1..], c);
    }
  }
}
