/**
  The "Select Graphic Rendition" control sequence of ECMA-48 (section 5.4
  for the control-sequence form, section 8.3.117 for SGR): ESC, `[`, the
  decimal parameters separated by `;`, then the final byte `m`.
  `SprintAttr` is the prefix builder of color.go; `DecodeSgr` is its
  left inverse, and `IsSgr` is the grammar that `Strip` deletes.
 */
module Sgr {
  import opened Options
  import opened Decimal

  /** The escape control character (0x1B). */
  const EscChar: char := '\U{1B}'

  /** The control sequence introducer, color.go's `esc`. */
  const Csi: string := [EscChar, '[']

  /** The reset sequence, color.go's `reset`. */
  const Reset: string := Csi + "0m"

  predicate NoEsc(s: string) {
    EscChar !in s
  }

  predicate IsParamChar(c: char) {
    IsDigit(c) || c == ';'
  }

  /** The pattern `\x1b\[[0-9;]*m`, matched against a whole string. */
  predicate IsSgr(t: string) {
    && |t| >= 3
    && t[..2] == Csi
    && t[|t| - 1] == 'm'
    && forall k :: 2 <= k < |t| - 1 ==> IsParamChar(t[k])
  }

  predicate AllNonNegative(codes: seq<int>) {
    forall i :: 0 <= i < |codes| ==> codes[i] >= 0
  }

  predicate ParamChars(s: string) {
    forall k :: 0 <= k < |s| ==> IsParamChar(s[k])
  }

  lemma ParamCharsConcat(a: string, b: string)
    ensures ParamChars(a + b) <==> ParamChars(a) && ParamChars(b)
  {
    if ParamChars(a + b) {
      forall k | 0 <= k < |a| ensures IsParamChar(a[k]) {
        assert (a + b)[k] == a[k];
      }
      forall k | 0 <= k < |b| ensures IsParamChar(b[k]) {
        assert (a + b)[|a| + k] == b[k];
      }
    }
    if ParamChars(a) && ParamChars(b) {
      forall k | 0 <= k < |a + b| ensures IsParamChar((a + b)[k]) {
        if k < |a| {
          assert (a + b)[k] == a[k];
        } else {
          assert (a + b)[k] == b[k - |a|];
        }
      }
    }
  }

  /** What the decimal text of one code contains: no separator, no escape, no final byte; only parameter characters exactly when the code is not negative. */
  lemma CodeText(n: int)
    ensures ';' !in IntToString(n) && EscChar !in IntToString(n) && 'm' !in IntToString(n)
    ensures ParamChars(IntToString(n)) <==> n >= 0
  {
    var t := IntToString(n);
    if n < 0 {
      assert t == [t[0]] + t[1..];
      assert !IsParamChar(t[0]);
    }
  }

  lemma AllNonNegativeCons(codes: seq<int>)
    requires |codes| > 0
    ensures AllNonNegative(codes) <==> codes[0] >= 0 && AllNonNegative(codes[1..])
  {
    assert forall i :: 1 <= i < |codes| ==> codes[i] == codes[1..][i - 1];
  }

  /** The parameters in decimal, one `;` between neighbours. */
  function JoinCodes(codes: seq<int>): string
    requires |codes| > 0
    decreases |codes|
  {
    var head := IntToString(codes[0]);
    if |codes| == 1 then head else head + ";" + JoinCodes(codes[1..])
  }

  /** The joined text has one separator per neighbouring pair and no escape or final byte. */
  lemma {:induction false} JoinCodesSeparators(codes: seq<int>)
    requires |codes| > 0
    ensures multiset(JoinCodes(codes))[';'] == |codes| - 1
    ensures EscChar !in JoinCodes(codes) && 'm' !in JoinCodes(codes)
    decreases |codes|
  {
    CodeText(codes[0]);
    if |codes| > 1 {
      JoinCodesSeparators(codes[1..]);
      var head, tail := IntToString(codes[0]), JoinCodes(codes[1..]);
      assert JoinCodes(codes) == head + ";" + tail;
      assert multiset(head + ";" + tail) == multiset(head) + multiset(";") + multiset(tail);
    }
  }

  lemma {:induction false} JoinCodesParamChars(codes: seq<int>)
    requires |codes| > 0
    ensures ParamChars(JoinCodes(codes)) <==> AllNonNegative(codes)
    decreases |codes|
  {
    CodeText(codes[0]);
    var head := IntToString(codes[0]);
    if |codes| == 1 {
      assert JoinCodes(codes) == head;
      assert AllNonNegative(codes) <==> codes[0] >= 0;
    } else {
      var tail := JoinCodes(codes[1..]);
      assert JoinCodes(codes) == head + ";" + tail;
      JoinCodesParamChars(codes[1..]);
      ParamCharsConcat(head + ";", tail);
      ParamCharsConcat(head, ";");
      assert ParamChars(";");
      AllNonNegativeCons(codes);
    }
  }

  /**
    color.go's `SprintAttr`: nothing for no attributes, otherwise the
    introducer, the codes in the given order joined by `;`, and `m`.
   */
  function SprintAttr(attrs: seq<int>): (r: string)
    ensures r == [] <==> |attrs| == 0
    ensures |attrs| > 0 ==> |r| >= 4 && r[..2] == Csi && r[|r| - 1] == 'm'
  {
    if |attrs| == 0 then [] else Csi + JoinCodes(attrs) + "m"
  }

  /** Exactly one separator between neighbouring codes: `|attrs| - 1` of them. */
  lemma SprintAttrSeparators(attrs: seq<int>)
    requires |attrs| > 0
    ensures multiset(SprintAttr(attrs))[';'] == |attrs| - 1
  {
    JoinCodesSeparators(attrs);
    var body := JoinCodes(attrs);
    assert multiset(Csi + body + "m") == multiset(Csi) + multiset(body) + multiset("m");
  }

  /** Splits a parameter string at every `;`; always at least one part. */
  function Split(s: string): (parts: seq<string>)
    ensures |parts| >= 1
    decreases |s|
  {
    if |s| == 0 then [[]]
    else
      var rest := Split(s[1..]);
      if s[0] == ';' then [[]] + rest else [[s[0]] + rest[0]] + rest[1..]
  }

  /** Parses every part as a decimal integer, failing if any part does not parse. */
  function ParseCodes(parts: seq<string>): Option<seq<int>>
    decreases |parts|
  {
    if |parts| == 0 then Some([])
    else
      match ParseInt(parts[0])
      case None => None
      case Some(c) =>
        match ParseCodes(parts[1..])
        case None => None
        case Some(cs) => Some([c] + cs)
  }

  /** The parameter list of a well-formed SGR sequence, or None. */
  function DecodeSgr(t: string): Option<seq<int>> {
    if |t| >= 3 && t[..2] == Csi && t[|t| - 1] == 'm' then ParseCodes(Split(t[2..|t| - 1]))
    else None
  }

  /** The decimal renderings of the codes, in order. */
  function Texts(codes: seq<int>): (ts: seq<string>)
    ensures |ts| == |codes|
    decreases |codes|
  {
    if |codes| == 0 then [] else [IntToString(codes[0])] + Texts(codes[1..])
  }

  lemma {:induction false} SplitNoSeparator(a: string)
    requires ';' !in a
    ensures Split(a) == [a]
    decreases |a|
  {
    if |a| > 0 {
      SplitNoSeparator(a[1..]);
      assert [a[0]] + a[1..] == a;
    }
  }

  lemma {:induction false} SplitAtSeparator(a: string, b: string)
    requires ';' !in a
    ensures Split(a + ";" + b) == [a] + Split(b)
    decreases |a|
  {
    if |a| == 0 {
      assert a + ";" + b == [';'] + b;
      assert (a + ";" + b)[1..] == b;
    } else {
      SplitAtSeparator(a[1..], b);
      assert (a + ";" + b)[1..] == a[1..] + ";" + b;
      assert [a[0]] + a[1..] == a;
    }
  }

  lemma {:induction false} SplitJoin(codes: seq<int>)
    requires |codes| > 0
    ensures Split(JoinCodes(codes)) == Texts(codes)
    decreases |codes|
  {
    var head := IntToString(codes[0]);
    assert ';' !in head by {
      if codes[0] < 0 {
        assert head == [head[0]] + head[1..];
      }
    }
    if |codes| == 1 {
      SplitNoSeparator(head);
    } else {
      SplitJoin(codes[1..]);
      SplitAtSeparator(head, JoinCodes(codes[1..]));
    }
  }

  lemma {:induction false} ParseTexts(codes: seq<int>)
    ensures ParseCodes(Texts(codes)) == Some(codes)
    decreases |codes|
  {
    if |codes| > 0 {
      ParseTexts(codes[1..]);
      IntToStringParses(codes[0]);
      assert Texts(codes)[1..] == Texts(codes[1..]);
      assert [codes[0]] + codes[1..] == codes;
    }
  }

  /** Decoding the prefix gives back exactly the attribute list: same codes, same order. */
  lemma SprintAttrDecodes(attrs: seq<int>)
    requires |attrs| > 0
    ensures DecodeSgr(SprintAttr(attrs)) == Some(attrs)
  {
    var r := SprintAttr(attrs);
    assert r[2..|r| - 1] == JoinCodes(attrs);
    SplitJoin(attrs);
    ParseTexts(attrs);
  }

  /** The prefix matches the stripping pattern exactly when it is non-empty and has no negative code. */
  lemma SprintAttrIsSgr(attrs: seq<int>)
    ensures IsSgr(SprintAttr(attrs)) <==> |attrs| > 0 && AllNonNegative(attrs)
  {
    if |attrs| > 0 {
      var body := JoinCodes(attrs);
      var r := SprintAttr(attrs);
      JoinCodesParamChars(attrs);
      assert r[2..|r| - 1] == body;
      if IsSgr(r) {
        forall k | 0 <= k < |body| ensures IsParamChar(body[k]) {
          assert body[k] == r[k + 2];
        }
      }
      if ParamChars(body) {
        forall k | 2 <= k < |r| - 1 ensures IsParamChar(r[k]) {
          assert r[k] == body[k - 2];
        }
      }
    }
  }

  /** The prefix for a selector, a mode and further codes, as one string. */
  lemma ExtendedPrefix(selector: int, mode: int, rest: seq<int>)
    requires |rest| > 0
    ensures SprintAttr([selector, mode] + rest)
         == Csi + IntToString(selector) + ";" + IntToString(mode) + ";" + JoinCodes(rest) + "m"
  {
    var a, b, t := IntToString(selector), IntToString(mode), JoinCodes(rest);
    var codes := [selector, mode] + rest;
    assert SprintAttr(codes) == Csi + JoinCodes(codes) + "m";
    JoinTwoMore(selector, mode, rest);
    RegroupPrefix(Csi, a, b, t);
  }

  lemma JoinTwoMore(selector: int, mode: int, rest: seq<int>)
    requires |rest| > 0
    ensures JoinCodes([selector, mode] + rest)
         == IntToString(selector) + ";" + (IntToString(mode) + ";" + JoinCodes(rest))
  {
    var tail := [mode] + rest;
    assert JoinCodes(tail) == IntToString(mode) + ";" + JoinCodes(rest) by {
      JoinCons(mode, rest);
    }
    assert JoinCodes([selector] + tail) == IntToString(selector) + ";" + JoinCodes(tail) by {
      JoinCons(selector, tail);
    }
    ConsTwo(selector, mode, rest);
  }

  /** Regroupings of lists and strings, stated on plain variables so the prefix proofs stay cheap. */
  lemma ConsTwo(selector: int, mode: int, rest: seq<int>)
    ensures [selector, mode] + rest == [selector] + ([mode] + rest)
  {
    assert [selector, mode] == [selector] + [mode];
    SeqAssoc([selector], [mode], rest);
  }

  lemma SeqAssoc(a: seq<int>, b: seq<int>, c: seq<int>)
    ensures a + b + c == a + (b + c)
  {
  }

  /** A code in front of a non-empty list prints before a `;` and the rest. */
  lemma JoinCons(c: int, rest: seq<int>)
    requires |rest| > 0
    ensures JoinCodes([c] + rest) == IntToString(c) + ";" + JoinCodes(rest)
  {
    assert ([c] + rest)[1..] == rest;
  }

  lemma RegroupPrefix(c: string, a: string, b: string, t: string)
    ensures c + (a + ";" + (b + ";" + t)) + "m" == c + a + ";" + b + ";" + t + "m"
  {
  }

  lemma JoinThree(r: int, g: int, b: int)
    ensures JoinCodes([r, g, b]) == IntToString(r) + ";" + IntToString(g) + ";" + IntToString(b)
  {
    assert [r, g, b][1..] == [g, b];
    assert [g, b][1..] == [b];
    var x, y, z := IntToString(r), IntToString(g), IntToString(b);
    assert JoinCodes([g, b]) == y + ";" + z;
    assert JoinCodes([r, g, b]) == x + ";" + (y + ";" + z);
    RegroupJoin(x, y, z);
  }

  lemma RegroupJoin(x: string, y: string, z: string)
    ensures x + ";" + (y + ";" + z) == x + ";" + y + ";" + z
  {
  }

  /** Examples of the prefix builder on literal lists: one code, then two codes kept in order. */
  lemma SprintAttrExamples()
    ensures SprintAttr([]) == ""
    ensures SprintAttr([31]) == Csi + "31m"
    ensures SprintAttr([31, 1]) == Csi + "31;1m"
  {
    SprintAttrSingle();
    SprintAttrPair();
  }

  lemma SprintAttrSingle()
    ensures SprintAttr([31]) == Csi + "31m"
  {
    assert JoinCodes([31]) == "31";
  }

  lemma SprintAttrPair()
    ensures SprintAttr([31, 1]) == Csi + "31;1m"
  {
    assert [31, 1][1..] == [1];
    assert JoinCodes([1]) == "1";
    assert JoinCodes([31, 1]) == "31;1";
  }
}
