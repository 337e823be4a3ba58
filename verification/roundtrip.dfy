/**
  How color.go's `Strip` undoes its own colouring: whatever `Wrap`,
  `Index`, `BgIndex`, `RGB`, `BgRGB` and the named helpers add around a
  text without escape characters, `Strip` removes again, as long as every
  attribute code is non-negative. A negative code prints with a `-`,
  which the pattern `\x1b\[[0-9;]*m` does not accept, so it survives.
 */
module RoundTrip {
  import opened Decimal
  import opened Sgr
  import opened Color
  import opened Stripper

  /** Stripping a wrapped, escape-free text gives back the text. */
  lemma WrapStripRoundTrip(enabled: bool, s: string, attrs: seq<int>)
    requires NoEsc(s) && AllNonNegative(attrs)
    ensures Strip(Wrap(enabled, s, attrs)) == s
  {
    if !enabled || |attrs| == 0 || s == [] {
      StripNoEsc(s);
    } else {
      WrapText(s, attrs);
      SprintAttrIsSgr(attrs);
      assert SprintAttr(attrs) + s + Reset == SprintAttr(attrs) + (s + Reset);
      StripDropsSgrPrefix(SprintAttr(attrs), s + Reset);
      StripKeepsPlainPrefix(s, Reset);
      StripResetAlone();
      assert s + [] == s;
    }
  }

  lemma IndexStripRoundTrip(enabled: bool, idx: int, s: string)
    requires NoEsc(s)
    ensures Strip(Index(enabled, idx, s)) == s
    ensures Strip(BgIndex(enabled, idx, s)) == s
  {
    var n := Clamp255(idx);
    assert AllNonNegative([38, 5, n]) && AllNonNegative([48, 5, n]);
    WrapStripRoundTrip(enabled, s, [38, 5, n]);
    WrapStripRoundTrip(enabled, s, [48, 5, n]);
  }

  lemma RGBStripRoundTrip(enabled: bool, r: int, g: int, b: int, s: string)
    requires NoEsc(s)
    ensures Strip(RGB(enabled, r, g, b, s)) == s
    ensures Strip(BgRGB(enabled, r, g, b, s)) == s
  {
    var channels := [Clamp255(r), Clamp255(g), Clamp255(b)];
    assert AllNonNegative([38, 2] + channels) && AllNonNegative([48, 2] + channels);
    assert [38, 2] + channels == [38, 2, Clamp255(r), Clamp255(g), Clamp255(b)];
    assert [48, 2] + channels == [48, 2, Clamp255(r), Clamp255(g), Clamp255(b)];
    WrapStripRoundTrip(enabled, s, [38, 2] + channels);
    WrapStripRoundTrip(enabled, s, [48, 2] + channels);
  }

  /** Every named helper (`Red`, `BgBlue`, `Bold`, ...) is undone by `Strip`. */
  lemma PaintStripRoundTrip(enabled: bool, a: Attr, s: string)
    requires NoEsc(s)
    ensures Strip(Paint(enabled, a, s)) == s
  {
    assert AllNonNegative([Code(a)]);
    WrapStripRoundTrip(enabled, s, [Code(a)]);
  }

  /** `Mix` is undone by `Strip` under the same conditions as `Wrap`. */
  lemma MixStripRoundTrip(enabled: bool, s: string, attrs: seq<int>)
    requires NoEsc(s) && AllNonNegative(attrs)
    ensures Strip(Mix(enabled, s, attrs)) == s
  {
    WrapStripRoundTrip(enabled, s, attrs);
  }

  /** A negative attribute code is printed but is not removed by `Strip`. */
  lemma NegativeAttrResidue()
    ensures Strip(Wrap(true, "x", [-1])) == Csi + "-1m" + "x"
  {
    var t := SprintAttr([-1]);
    assert t == Csi + "-1m" by {
      assert IntToString(-1) == "-1" by {
        assert NatToString(1) == "1";
      }
      assert JoinCodes([-1]) == "-1";
    }
    WrapText("x", [-1]);
    var w := t + "x" + Reset;
    assert Wrap(true, "x", [-1]) == w;
    assert w == Csi + ("-1m" + "x") + Reset;
    assert Strip(Csi + ("-1m" + "x") + Reset) == Csi + "-1m" + "x" by {
      NegativeResidueText("-1m" + "x");
    }
  }

  /** `ESC [` followed by a text that starts with `-` is not a match, so both are kept. */
  lemma NegativeResidueText(x: string)
    requires NoEsc(x) && |x| > 0 && x[0] == '-'
    ensures Strip(Csi + x + Reset) == Csi + x
  {
    var w := Csi + x + Reset;
    assert MatchAt(w, 0).None? by {
      assert w[2] == '-';
      ParamRunFirst(w, 2, 2);
    }
    StripNoMatch(w);
    assert w[1..] == "[" + x + Reset;
    assert NoEsc("[" + x);
    assert "[" + x + Reset == ("[" + x) + Reset;
    StripKeepsPlainPrefix("[" + x, Reset);
    StripResetAlone();
    assert ("[" + x) + [] == "[" + x;
    assert [EscChar] + ("[" + x) == Csi + x;
  }
}
