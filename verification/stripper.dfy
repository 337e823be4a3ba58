/**
  color.go's `Strip`: `regexp.ReplaceAllString` with the pattern
  `\x1b\[[0-9;]*m` and an empty replacement. `Strip` follows the regexp
  semantics (find the leftmost match, drop it, continue after it);
  `ScanStrip` is a one-pass character scanner proved to compute the same.
  Everything is stated on positions in the input rather than on suffixes.
 */
module Stripper {
  import opened Options
  import opened Sgr

  // ----- The pattern -----

  /** The end of the run of parameter characters that starts at `k`. */
  function ParamRun(s: string, k: nat): (e: nat)
    requires k <= |s|
    ensures k <= e <= |s|
    decreases |s| - k
  {
    if k == |s| || !IsParamChar(s[k]) then k else ParamRun(s, k + 1)
  }

  /** The run holds only parameter characters and stops at the first other one. */
  lemma {:induction false} ParamRunSound(s: string, k: nat)
    requires k <= |s|
    ensures forall j :: k <= j < ParamRun(s, k) ==> IsParamChar(s[j])
    ensures ParamRun(s, k) == |s| || !IsParamChar(s[ParamRun(s, k)])
    decreases |s| - k
  {
    if k < |s| && IsParamChar(s[k]) {
      ParamRunSound(s, k + 1);
    }
  }

  /** The run ends at the first character that is not a parameter character. */
  lemma {:induction false} ParamRunFirst(s: string, k: nat, e: nat)
    requires k <= e <= |s|
    requires forall j :: k <= j < e ==> IsParamChar(s[j])
    requires e == |s| || !IsParamChar(s[e])
    ensures ParamRun(s, k) == e
    decreases e - k
  {
    if k < e {
      ParamRunFirst(s, k + 1, e);
    }
  }

  /**
    The length of the match that starts at position `i`, if there is one.
    Because `m` is not a parameter character there is at most one such
    length, so the regexp's choice is forced.
   */
  function MatchAt(s: string, i: nat): (m: Option<nat>)
    requires i <= |s|
    ensures m.Some? ==> 3 <= m.value && i + m.value <= |s|
  {
    if i + 1 < |s| && s[i] == EscChar && s[i + 1] == '[' then
      var e := ParamRun(s, i + 2);
      if e < |s| && s[e] == 'm' then Some(e + 1 - i) else None
    else None
  }

  /** What `MatchAt` finds is a complete SGR sequence. */
  lemma MatchAtSound(s: string, i: nat)
    requires i <= |s| && MatchAt(s, i).Some?
    ensures IsSgr(s[i..i + MatchAt(s, i).value])
  {
    var e := ParamRun(s, i + 2);
    ParamRunSound(s, i + 2);
    var t := s[i..e + 1];
    assert t[..2] == Csi;
    forall k | 2 <= k < |t| - 1
      ensures IsParamChar(t[k])
    {
      assert t[k] == s[i + k];
    }
  }

  /** Every SGR sequence starting at `i` is the one `MatchAt` finds. */
  lemma MatchAtComplete(s: string, i: nat, n: nat)
    requires i + n <= |s| && IsSgr(s[i..i + n])
    ensures MatchAt(s, i) == Some(n)
  {
    var t := s[i..i + n];
    assert s[i] == t[..2][0] && s[i + 1] == t[..2][1];
    assert s[i + n - 1] == 'm' by {
      assert t[n - 1] == s[i + n - 1];
    }
    forall k | i + 2 <= k < i + n - 1
      ensures IsParamChar(s[k])
    {
      assert s[k] == t[k - i];
    }
    ParamRunFirst(s, i + 2, i + n - 1);
  }

  /** No match starts anywhere in `s`. */
  predicate MatchFree(s: string) {
    forall q :: 0 <= q <= |s| ==> MatchAt(s, q).None?
  }

  // ----- The regexp semantics -----

  /** The leftmost match at or after `from`: its start and its length. */
  function Leftmost(s: string, from: nat): (m: Option<(nat, nat)>)
    requires from <= |s|
    ensures m.Some? ==> from <= m.value.0 && 3 <= m.value.1 && m.value.0 + m.value.1 <= |s|
    decreases |s| - from
  {
    if from == |s| then None
    else
      match MatchAt(s, from)
      case Some(n) => Some((from, n))
      case None => Leftmost(s, from + 1)
  }

  /** What the search finds is a match. */
  lemma {:induction false} LeftmostSound(s: string, from: nat)
    requires from <= |s| && Leftmost(s, from).Some?
    ensures MatchAt(s, Leftmost(s, from).value.0) == Some(Leftmost(s, from).value.1)
    decreases |s| - from
  {
    if MatchAt(s, from).None? {
      LeftmostSound(s, from + 1);
    }
  }

  /** The search finds nothing exactly when no match starts at or after `from`. */
  lemma {:induction false} LeftmostNone(s: string, from: nat)
    requires from <= |s|
    ensures Leftmost(s, from).None? <==> forall q :: from <= q <= |s| ==> MatchAt(s, q).None?
    decreases |s| - from
  {
    if from < |s| && MatchAt(s, from).None? {
      LeftmostNone(s, from + 1);
    }
  }

  /** What the search finds is the leftmost match: none starts between `from` and it. */
  lemma {:induction false} LeftmostFirst(s: string, from: nat)
    requires from <= |s| && Leftmost(s, from).Some?
    ensures forall q :: from <= q < Leftmost(s, from).value.0 ==> MatchAt(s, q).None?
    decreases |s| - from
  {
    if MatchAt(s, from).None? {
      LeftmostFirst(s, from + 1);
    }
  }

  /**
    `regexp.ReplaceAllString` with an empty replacement, from search
    position `from`: copy up to the leftmost match, drop it, and resume
    the search right after it.
   */
  function ReplaceFrom(s: string, from: nat): (r: string)
    requires from <= |s|
    ensures |r| <= |s| - from
    decreases |s| - from
  {
    var m := Leftmost(s, from);
    if m.None? then s[from..]
    else s[from..m.value.0] + ReplaceFrom(s, m.value.0 + m.value.1)
  }

  /** color.go's `Strip`: every match removed, the text between matches kept. */
  function Strip(s: string): (r: string)
    ensures |r| <= |s|
  {
    ReplaceFrom(s, 0)
  }

  lemma ReplaceUnfold(s: string, i: nat, p: nat, n: nat)
    requires i <= p && p + n <= |s|
    requires Leftmost(s, i).Some? && Leftmost(s, i).value.0 == p && Leftmost(s, i).value.1 == n
    ensures ReplaceFrom(s, i) == s[i..p] + ReplaceFrom(s, p + n)
  {
  }

  // ----- The scanner semantics -----

  /**
    The same removal one position at a time: skip the match that starts
    at `i` if there is one, otherwise keep the character at `i`.
   */
  function ScanFrom(s: string, i: nat): string
    requires i <= |s|
    decreases |s| - i
  {
    if i == |s| then []
    else
      match MatchAt(s, i)
      case Some(n) => ScanFrom(s, i + n)
      case None => [s[i]] + ScanFrom(s, i + 1)
  }

  /** The scanner never lengthens the text. */
  lemma {:induction false} ScanFromLength(s: string, i: nat)
    requires i <= |s|
    ensures |ScanFrom(s, i)| <= |s| - i
    decreases |s| - i
  {
    if i < |s| {
      match MatchAt(s, i)
      case Some(n) => ScanFromLength(s, i + n);
      case None => ScanFromLength(s, i + 1);
    }
  }

  /** Where no match starts, the scanner copies the text verbatim. */
  lemma {:induction false} ScanCopiesPlain(s: string, i: nat, p: nat)
    requires i <= p <= |s|
    requires forall q :: i <= q < p ==> MatchAt(s, q).None?
    ensures ScanFrom(s, i) == s[i..p] + ScanFrom(s, p)
    decreases p - i
  {
    if i == p {
      assert s[i..p] == [];
    } else {
      ScanCopiesPlain(s, i + 1, p);
      assert ScanFrom(s, i) == [s[i]] + ScanFrom(s, i + 1);
      ConsSplit(s, i, p, ScanFrom(s, p));
    }
  }

  lemma ConsSplit(s: string, i: nat, p: nat, rest: string)
    requires i < p <= |s|
    ensures s[i..p] + rest == [s[i]] + (s[i + 1..p] + rest)
  {
    assert s[i..p] == [s[i]] + s[i + 1..p];
  }

  /** From any search position, the regexp semantics and the scanner agree on the rest of the text. */
  lemma {:induction false} ReplaceFromIsScan(s: string, i: nat)
    requires i <= |s|
    ensures ReplaceFrom(s, i) == ScanFrom(s, i)
    decreases |s| - i
  {
    var m := Leftmost(s, i);
    if m.None? {
      LeftmostNone(s, i);
      ScanCopiesPlain(s, i, |s|);
      assert s[i..|s|] + [] == s[i..];
    } else {
      var p, n := m.value.0, m.value.1;
      ReplaceFromIsScan(s, p + n);
      ReplaceMatchIsScan(s, i, p, n);
    }
  }

  /** One step of the agreement: the text before the leftmost match, then the match skipped. */
  lemma ReplaceMatchIsScan(s: string, i: nat, p: nat, n: nat)
    requires i <= p && p + n <= |s|
    requires Leftmost(s, i).Some? && Leftmost(s, i).value.0 == p && Leftmost(s, i).value.1 == n
    requires ReplaceFrom(s, p + n) == ScanFrom(s, p + n)
    ensures ReplaceFrom(s, i) == ScanFrom(s, i)
  {
    ReplaceUnfold(s, i, p, n);
    ScanUpToMatch(s, i, p, n);
    calc {
      ReplaceFrom(s, i);
      s[i..p] + ReplaceFrom(s, p + n);
      s[i..p] + ScanFrom(s, p + n);
      ScanFrom(s, i);
    }
  }

  /** The scanner copies the text before the leftmost match and then skips the match. */
  lemma ScanUpToMatch(s: string, i: nat, p: nat, n: nat)
    requires i <= p && p + n <= |s|
    requires Leftmost(s, i).Some? && Leftmost(s, i).value.0 == p && Leftmost(s, i).value.1 == n
    ensures ScanFrom(s, i) == s[i..p] + ScanFrom(s, p + n)
  {
    assert ScanFrom(s, i) == s[i..p] + ScanFrom(s, p) by {
      LeftmostFirst(s, i);
      ScanCopiesPlain(s, i, p);
    }
    assert ScanFrom(s, p) == ScanFrom(s, p + n) by {
      LeftmostSound(s, i);
      ScanAtMatch(s, p, p + n);
    }
  }

  lemma StripIsScan(s: string)
    ensures Strip(s) == ScanFrom(s, 0)
  {
    ReplaceFromIsScan(s, 0);
  }

  /** Scanning from position `d + k` is scanning the suffix from `k`. */
  lemma {:induction false} ParamRunShift(s: string, d: nat, k: nat)
    requires d + k <= |s|
    ensures ParamRun(s, d + k) == d + ParamRun(s[d..], k)
    decreases |s| - d - k
  {
    if d + k < |s| {
      assert s[d..][k] == s[d + k];
      if IsParamChar(s[d + k]) {
        ParamRunShift(s, d, k + 1);
      }
    }
  }

  lemma MatchAtShift(s: string, d: nat, k: nat)
    requires d + k <= |s|
    ensures MatchAt(s, d + k) == MatchAt(s[d..], k)
  {
    var t := s[d..];
    if k + 1 < |t| {
      assert t[k] == s[d + k] && t[k + 1] == s[d + k + 1];
      if t[k] == EscChar && t[k + 1] == '[' {
        ParamRunShift(s, d, k + 2);
        var e := ParamRun(t, k + 2);
        if e < |t| {
          assert t[e] == s[d + e];
        }
      }
    }
  }

  lemma {:induction false} ScanShift(s: string, d: nat, k: nat)
    requires d + k <= |s|
    ensures ScanFrom(s, d + k) == ScanFrom(s[d..], k)
    decreases |s| - d - k, 1
  {
    if d + k < |s| {
      MatchAtShift(s, d, k);
      if MatchAt(s, d + k).Some? {
        ShiftAtMatch(s, d, k, MatchAt(s, d + k).value);
      } else {
        ShiftAtPlain(s, d, k);
      }
    } else {
      assert |s[d..]| == k;
    }
  }

  lemma {:induction false} ShiftAtMatch(s: string, d: nat, k: nat, n: nat)
    requires d + k + n <= |s| && n > 0
    requires MatchAt(s, d + k) == MatchAt(s[d..], k) == Some(n)
    ensures ScanFrom(s, d + k) == ScanFrom(s[d..], k)
    decreases |s| - d - k, 0
  {
    ScanShift(s, d, k + n);
    ScanAtMatch(s, d + k, d + (k + n));
    ScanAtMatch(s[d..], k, k + n);
  }

  lemma {:induction false} ShiftAtPlain(s: string, d: nat, k: nat)
    requires d + k < |s|
    requires MatchAt(s, d + k) == MatchAt(s[d..], k) && MatchAt(s, d + k).None?
    ensures ScanFrom(s, d + k) == ScanFrom(s[d..], k)
    decreases |s| - d - k, 0
  {
    ScanShift(s, d, k + 1);
    ScanAtPlain(s, d + k, d + (k + 1));
    ScanAtPlain(s[d..], k, k + 1);
    assert s[d..][k] == s[d + k];
  }

  /** The scanner skips a match that starts at `i` and ends before `j`. */
  lemma ScanAtMatch(s: string, i: nat, j: nat)
    requires i <= j <= |s| && MatchAt(s, i) == Some(j - i)
    ensures ScanFrom(s, i) == ScanFrom(s, j)
  {
  }

  /** The scanner copies the character at `i` when no match starts there. */
  lemma ScanAtPlain(s: string, i: nat, j: nat)
    requires i < |s| && j == i + 1 && MatchAt(s, i).None?
    ensures ScanFrom(s, i) == [s[i]] + ScanFrom(s, j)
  {
  }

  /** Stripping a suffix is scanning the whole text from where the suffix starts. */
  lemma StripSuffix(s: string, d: nat)
    requires d <= |s|
    ensures Strip(s[d..]) == ScanFrom(s, d)
  {
    StripIsScan(s[d..]);
    ScanShift(s, d, 0);
  }

  /** A match at the front is dropped and stripping resumes right after it. */
  lemma StripAtMatch(t: string, n: nat)
    requires MatchAt(t, 0) == Some(n)
    ensures n <= |t|
    ensures Strip(t) == Strip(t[n..])
  {
    StripIsScan(t);
    StripSuffix(t, n);
  }

  /** Without a match at the front, the first character is kept verbatim. */
  lemma StripNoMatch(t: string)
    requires |t| > 0 && MatchAt(t, 0).None?
    ensures Strip(t) == [t[0]] + Strip(t[1..])
  {
    StripIsScan(t);
    StripSuffix(t, 1);
  }

  // ----- The one-pass scanner -----

  /**
    The scanner: at each position, look for `ESC [`, skip the parameter
    characters, and drop the whole run if an `m` follows; otherwise copy
    one character.
   */
  method ScanStrip(s: string) returns (r: string)
    ensures r == Strip(s)
  {
    r := [];
    var i := 0;
    while i < |s|
      invariant 0 <= i <= |s|
      invariant r + ScanFrom(s, i) == ScanFrom(s, 0)
      decreases |s| - i
    {
      var next, keep := Step(s, i);
      if keep {
        assert ScanFrom(s, i) == [s[i]] + ScanFrom(s, i + 1);
        ConsAssoc(r, s[i], ScanFrom(s, i + 1));
        r := r + [s[i]];
      } else {
        assert ScanFrom(s, i) == ScanFrom(s, next);
      }
      i := next;
    }
    assert r + [] == r;
    StripIsScan(s);
  }

  /** Appending a kept character regroups the accumulated output; stated on plain variables so the loop body stays cheap. */
  lemma ConsAssoc(r: string, c: char, b: string)
    ensures r + ([c] + b) == r + [c] + b
  {
  }

  /**
    One step of the scanner at position `i`: either a match starts there
    and the scan resumes after it, or the character at `i` is kept.
   */
  method Step(s: string, i: nat) returns (next: nat, keep: bool)
    requires i < |s|
    ensures i < next <= |s|
    ensures keep <==> MatchAt(s, i).None?
    ensures keep ==> next == i + 1
    ensures !keep ==> MatchAt(s, i) == Some(next - i)
  {
    if i + 1 < |s| && s[i] == EscChar && s[i + 1] == '[' {
      var j := SkipParams(s, i + 2);
      ParamRunFirst(s, i + 2, j);
      if j < |s| && s[j] == 'm' {
        return j + 1, false;
      }
    }
    return i + 1, true;
  }

  /** The index of the first non-parameter character at or after `k`. */
  method SkipParams(s: string, k: nat) returns (j: nat)
    requires k <= |s|
    ensures k <= j <= |s|
    ensures forall q :: k <= q < j ==> IsParamChar(s[q])
    ensures j == |s| || !IsParamChar(s[j])
  {
    j := k;
    while j < |s| && IsParamChar(s[j])
      invariant k <= j <= |s|
      invariant forall q :: k <= q < j ==> IsParamChar(s[q])
      decreases |s| - j
    {
      j := j + 1;
    }
  }

  // ----- What stripping keeps and removes -----

  /** Stripping only deletes: its output is a subsequence of its input. */
  predicate IsSubsequence(a: string, b: string)
    decreases |b|
  {
    if |a| == 0 then true
    else if |b| == 0 then false
    else (a[0] == b[0] && IsSubsequence(a[1..], b[1..])) || IsSubsequence(a, b[1..])
  }

  lemma {:induction false} SubsequenceExtend(a: string, c: string, b: string)
    requires IsSubsequence(a, b)
    ensures IsSubsequence(a, c + b)
    decreases |c|
  {
    if |c| > 0 && |a| > 0 {
      SubsequenceExtend(a, c[1..], b);
      assert (c + b)[1..] == c[1..] + b;
      assert IsSubsequence(a, (c + b)[1..]);
    } else if |c| == 0 {
      assert c + b == b;
    }
  }

  lemma {:induction false} ScanSubsequence(s: string, i: nat)
    requires i <= |s|
    ensures IsSubsequence(ScanFrom(s, i), s[i..])
    decreases |s| - i, 1
  {
    if i < |s| {
      if MatchAt(s, i).Some? {
        SubsequenceAtMatch(s, i, MatchAt(s, i).value);
      } else {
        SubsequenceAtPlain(s, i);
      }
    }
  }

  /** A skipped match only removes characters. */
  lemma {:induction false} SubsequenceAtMatch(s: string, i: nat, n: nat)
    requires i + n <= |s| && n > 0 && MatchAt(s, i) == Some(n)
    ensures IsSubsequence(ScanFrom(s, i), s[i..])
    decreases |s| - i, 0
  {
    var kept := ScanFrom(s, i + n);
    assert IsSubsequence(kept, s[i..]) by {
      ScanSubsequence(s, i + n);
      assert s[i..] == s[i..i + n] + s[i + n..];
      SubsequenceExtend(kept, s[i..i + n], s[i + n..]);
    }
    assert ScanFrom(s, i) == kept by {
      ScanAtMatch(s, i, i + n);
    }
  }

  /** A kept character is matched against itself. */
  lemma {:induction false} SubsequenceAtPlain(s: string, i: nat)
    requires i < |s| && MatchAt(s, i).None?
    ensures IsSubsequence(ScanFrom(s, i), s[i..])
    decreases |s| - i, 0
  {
    ScanSubsequence(s, i + 1);
    ScanAtPlain(s, i, i + 1);
    assert s[i..][1..] == s[i + 1..];
    assert ([s[i]] + ScanFrom(s, i + 1))[1..] == ScanFrom(s, i + 1);
  }

  lemma StripSubsequence(s: string)
    ensures IsSubsequence(Strip(s), s)
  {
    StripIsScan(s);
    ScanSubsequence(s, 0);
    assert s[0..] == s;
  }

  /** The scanner reproduces the rest of the text exactly when no match starts in it. */
  lemma {:induction false} ScanFixedPoints(s: string, i: nat)
    requires i <= |s|
    ensures ScanFrom(s, i) == s[i..] <==> forall q :: i <= q <= |s| ==> MatchAt(s, q).None?
    decreases |s| - i
  {
    if i < |s| {
      if MatchAt(s, i).Some? {
        ChangedAtMatch(s, i, MatchAt(s, i).value);
      } else {
        ScanFixedPoints(s, i + 1);
        FixedAtPlain(s, i);
      }
    }
  }

  /** A match at `i` makes the scan strictly shorter than the rest of the text. */
  lemma ChangedAtMatch(s: string, i: nat, n: nat)
    requires i < |s| && MatchAt(s, i) == Some(n)
    ensures ScanFrom(s, i) != s[i..]
  {
    ScanFromLength(s, i + n);
  }

  /** A kept character extends the fixed-point property from `i + 1` to `i`. */
  lemma FixedAtPlain(s: string, i: nat)
    requires i < |s| && MatchAt(s, i).None?
    requires ScanFrom(s, i + 1) == s[i + 1..] <==> forall q :: i + 1 <= q <= |s| ==> MatchAt(s, q).None?
    ensures ScanFrom(s, i) == s[i..] <==> forall q :: i <= q <= |s| ==> MatchAt(s, q).None?
  {
    assert ScanFrom(s, i) == [s[i]] + ScanFrom(s, i + 1);
    assert s[i..] == [s[i]] + s[i + 1..];
    if ScanFrom(s, i) == s[i..] {
      assert ScanFrom(s, i + 1) == ScanFrom(s, i)[1..];
    }
  }

  /** Stripping changes its input exactly when a match occurs somewhere in it. */
  lemma StripFixedPoints(s: string)
    ensures Strip(s) == s <==> MatchFree(s)
  {
    StripIsScan(s);
    ScanFixedPoints(s, 0);
    assert s[0..] == s;
  }

  /** A string without the escape character is never changed, so a bare `[31m` survives. */
  lemma StripNoEsc(s: string)
    requires NoEsc(s)
    ensures Strip(s) == s
  {
    forall q | 0 <= q <= |s|
      ensures MatchAt(s, q).None?
    {
      if q < |s| {
        assert s[q] in s;
      }
    }
    StripFixedPoints(s);
  }

  /** Text free of escapes is copied through in front of whatever follows. */
  lemma StripKeepsPlainPrefix(x: string, y: string)
    requires NoEsc(x)
    ensures Strip(x + y) == x + Strip(y)
  {
    var s := x + y;
    assert forall q :: 0 <= q < |x| ==> MatchAt(s, q).None? by {
      forall q | 0 <= q < |x|
        ensures MatchAt(s, q).None?
      {
        assert s[q] == x[q];
      }
    }
    StripIsScan(s);
    ScanCopiesPlain(s, 0, |x|);
    assert s[0..|x|] == x && s[|x|..] == y;
    StripSuffix(s, |x|);
  }

  /** A complete SGR sequence at the front is removed whatever follows it. */
  lemma StripDropsSgrPrefix(t: string, y: string)
    requires IsSgr(t)
    ensures Strip(t + y) == Strip(y)
  {
    assert (t + y)[0..|t|] == t;
    MatchAtComplete(t + y, 0, |t|);
    StripAtMatch(t + y, |t|);
    assert (t + y)[|t|..] == y;
  }

  lemma StripResetAlone()
    ensures Strip(Reset) == []
  {
    assert IsSgr(Reset);
    StripDropsSgrPrefix(Reset, []);
    assert Reset + [] == Reset;
    StripNoEsc([]);
  }

  /**
    Stripping is not idempotent: removing the inner sequence of
    `ESC [ ESC [31m m` joins the outer `ESC [` with the trailing `m` into a
    new match, which only a second pass removes.
   */
  lemma StripNotIdempotent()
    ensures var w := Csi + Csi + "31m" + "m";
      && Strip(w) == Csi + "m"
      && Strip(Strip(w)) == []
      && Strip(Strip(w)) != Strip(w)
  {
    StripNestedOnce();
    assert Strip(Csi + "m") == [] by {
      assert IsSgr(Csi + "m");
      StripDropsSgrPrefix(Csi + "m", []);
      assert Csi + "m" + [] == Csi + "m";
      StripNoEsc([]);
    }
  }

  lemma StripNestedOnce()
    ensures Strip(Csi + Csi + "31m" + "m") == Csi + "m"
  {
    var inner := Csi + "31m";
    var w := Csi + inner + "m";
    assert Csi + Csi + "31m" + "m" == w;
    assert MatchAt(w, 0).None? by {
      assert w[2] == EscChar;
      ParamRunFirst(w, 2, 2);
    }
    StripNoMatch(w);
    assert Strip(w[1..]) == "[" + Strip(inner + "m") by {
      assert w[1..] == "[" + (inner + "m");
      StripKeepsPlainPrefix("[", inner + "m");
    }
    assert Strip(inner + "m") == "m" by {
      assert IsSgr(inner) by {
        assert inner[..2] == Csi;
      }
      StripDropsSgrPrefix(inner, "m");
      StripNoEsc("m");
    }
    assert [EscChar] + ("[" + "m") == Csi + "m";
  }
}
