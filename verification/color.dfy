/**
  The styling functions of color.go. The package-wide enable flag is an
  explicit `enabled` parameter of every formatter; `Gate` models the flag
  itself with its initial value and its two setters.
 */
module Color {
  import opened Options
  import opened Decimal
  import opened Sgr

  // ----- The enable flag -----

  datatype Gate = Gate(enabled: bool)

  /** The flag as the package's initialiser leaves it. */
  const InitialGate: Gate := Gate(true)

  function Enable(g: Gate): (r: Gate)
    ensures r.enabled && r == InitialGate
  {
    Gate(true)
  }

  function Disable(g: Gate): (r: Gate)
    ensures !r.enabled && r != InitialGate
  {
    Gate(false)
  }

  /** color.go's `Reset()`: the SGR sequence carrying the single code 0. */
  function ResetSequence(): (r: string)
    ensures r == SprintAttr([0])
    ensures IsSgr(r)
    ensures DecodeSgr(r) == Some([0])
  {
    assert Reset == SprintAttr([0]) by {
      assert JoinCodes([0]) == "0" by {
        assert DigitChar(0) == '0';
      }
    }
    SprintAttrDecodes([0]);
    SprintAttrIsSgr([0]);
    Reset
  }

  // ----- Attributes -----

  datatype Hue = Black | Red | Green | Yellow | Blue | Magenta | Cyan | White

  /** Position of a hue in the eight-colour tables (the `iota` of color.go). */
  function HueOffset(h: Hue): (k: nat)
    ensures k < 8
  {
    match h
    case Black => 0
    case Red => 1
    case Green => 2
    case Yellow => 3
    case Blue => 4
    case Magenta => 5
    case Cyan => 6
    case White => 7
  }

  /** The named `Attr` constants of color.go. */
  datatype Attr =
    | ResetAttr | BoldAttr | DimAttr | ItalicAttr | UnderlineAttr
    | BlinkAttr | InverseAttr | HiddenAttr | StrikeAttr
    | Fg(hue: Hue) | FgBright(hue: Hue) | Bg(hue: Hue) | BgBright(hue: Hue)
  {
    predicate IsStyle() {
      !Fg? && !FgBright? && !Bg? && !BgBright?
    }
  }

  /** The SGR code of each constant: styles in 0..9 (6 unused), colours in four bands of eight. */
  function Code(a: Attr): (c: int)
    ensures a.IsStyle() <==> 0 <= c <= 9
    ensures a.Fg? <==> 30 <= c <= 37
    ensures a.FgBright? <==> 90 <= c <= 97
    ensures a.Bg? <==> 40 <= c <= 47
    ensures a.BgBright? <==> 100 <= c <= 107
    ensures c != 6
  {
    match a
    case ResetAttr => 0
    case BoldAttr => 1
    case DimAttr => 2
    case ItalicAttr => 3
    case UnderlineAttr => 4
    case BlinkAttr => 5
    case InverseAttr => 7
    case HiddenAttr => 8
    case StrikeAttr => 9
    case Fg(h) => 30 + HueOffset(h)
    case FgBright(h) => 90 + HueOffset(h)
    case Bg(h) => 40 + HueOffset(h)
    case BgBright(h) => 100 + HueOffset(h)
  }

  lemma HueOffsetInjective(h: Hue, k: Hue)
    requires HueOffset(h) == HueOffset(k)
    ensures h == k
  {
  }

  /** No two constants share a code. */
  lemma CodeInjective(a: Attr, b: Attr)
    requires Code(a) == Code(b)
    ensures a == b
  {
    if !a.IsStyle() {
      HueOffsetInjective(a.hue, b.hue);
    }
  }

  // ----- The wrapping primitive -----

  /**
    color.go's `Wrap`: the text unchanged when the flag is off, no attribute
    is given or the text is empty; otherwise the attribute prefix, the text
    and the reset sequence.
   */
  function Wrap(enabled: bool, s: string, attrs: seq<int>): (r: string)
    ensures !enabled || |attrs| == 0 || s == [] ==> r == s
    ensures enabled && |attrs| > 0 && s != [] ==>
      |r| >= 4 + |s| + |Reset| && r[..2] == Csi && r[|r| - |Reset|..] == Reset
  {
    if !enabled || |attrs| == 0 || s == [] then s
    else SprintAttr(attrs) + s + Reset
  }

  /**
    A wrapped text splits back into an SGR prefix that decodes to exactly
    the given attributes, the text itself, and the reset sequence.
   */
  lemma WrapDecodes(s: string, attrs: seq<int>)
    requires |attrs| > 0 && s != []
    ensures var r := Wrap(true, s, attrs);
      var n := |r| - |s| - |Reset|;
      && n >= 4
      && DecodeSgr(r[..n]) == Some(attrs)
      && r[n..|r| - |Reset|] == s
      && r[|r| - |Reset|..] == Reset
  {
    var r, p := Wrap(true, s, attrs), SprintAttr(attrs);
    var n := |r| - |s| - |Reset|;
    assert r == p + s + Reset;
    assert r[..n] == p && r[n..|r| - |Reset|] == s && r[|r| - |Reset|..] == Reset by {
      ThreeParts(p, s, Reset);
    }
    assert DecodeSgr(p) == Some(attrs) by {
      SprintAttrDecodes(attrs);
    }
  }

  /** Where the three parts of a concatenation sit in it. */
  lemma ThreeParts(p: string, s: string, q: string)
    ensures var r := p + s + q;
      && r[..|p|] == p
      && r[|p|..|r| - |q|] == s
      && r[|r| - |q|..] == q
      && (|p| >= 2 ==> r[..2] == p[..2])
  {
  }

  /**
    color.go's `Mix`: any attribute list, forwarded to `Wrap`. The text is
    passed through under the same three conditions; otherwise it is framed
    by an SGR prefix and the reset sequence (`MixDecodes` says which prefix).
   */
  function Mix(enabled: bool, s: string, attrs: seq<int>): (r: string)
    ensures !enabled || |attrs| == 0 || s == [] ==> r == s
    ensures enabled && |attrs| > 0 && s != [] ==>
      |r| >= 4 + |s| + |Reset| && r[..2] == Csi && r[|r| - |Reset|..] == Reset
  {
    Wrap(enabled, s, attrs)
  }

  /** A mixed text splits into a prefix decoding to exactly the given attributes, the text, and the reset. */
  lemma MixDecodes(s: string, attrs: seq<int>)
    requires |attrs| > 0 && s != []
    ensures var r := Mix(true, s, attrs);
      var n := |r| - |s| - |Reset|;
      && n >= 4
      && DecodeSgr(r[..n]) == Some(attrs)
      && r[n..|r| - |Reset|] == s
      && r[|r| - |Reset|..] == Reset
  {
    assert Mix(true, s, attrs) == Wrap(true, s, attrs);
    WrapDecodes(s, attrs);
  }

  /**
    The forty one-attribute helpers of color.go (`Red`, `BgRedText`,
    `Bold`, ...): each is `Wrap` with the code of one constant.
   */
  function Paint(enabled: bool, a: Attr, s: string): (r: string)
    ensures !enabled || s == [] ==> r == s
    ensures enabled && s != [] ==> r == Csi + IntToString(Code(a)) + "m" + s + Reset
  {
    Wrap(enabled, s, [Code(a)])
  }

  const Hues: seq<Hue> := [Black, Red, Green, Yellow, Blue, Magenta, Cyan, White]

  /** The attribute behind each helper, in the order color.go declares them. */
  const Helpers: seq<Attr> :=
    seq(8, i requires 0 <= i < 8 => Fg(Hues[i]))
    + seq(8, i requires 0 <= i < 8 => FgBright(Hues[i]))
    + seq(8, i requires 0 <= i < 8 => Bg(Hues[i]))
    + seq(8, i requires 0 <= i < 8 => BgBright(Hues[i]))
    + [BoldAttr, DimAttr, ItalicAttr, UnderlineAttr, BlinkAttr, InverseAttr, HiddenAttr, StrikeAttr]

  /** There is one helper for every constant except the reset code. */
  lemma HelpersCatalogue(a: Attr)
    ensures |Helpers| == 40
    ensures a in Helpers <==> a != ResetAttr
  {
    if !a.IsStyle() {
      var i := HueOffset(a.hue);
      assert Hues[i] == a.hue by {
        match a.hue
        case Black =>
        case Red =>
        case Green =>
        case Yellow =>
        case Blue =>
        case Magenta =>
        case Cyan =>
        case White =>
      }
      match a
      case Fg(_) => assert Helpers[i] == a;
      case FgBright(_) => assert Helpers[8 + i] == a;
      case Bg(_) => assert Helpers[16 + i] == a;
      case BgBright(_) => assert Helpers[24 + i] == a;
    } else if a != ResetAttr {
      assert a in Helpers[32..];
    }
  }

  // ----- 256-colour and true-colour formatters -----

  /** color.go's `clamp255`: the point of [0, 255] nearest to `v`. */
  function Clamp255(v: int): (c: int)
    ensures 0 <= c <= 255
    ensures 0 <= v <= 255 ==> c == v
    ensures forall w :: 0 <= w <= 255 ==> Distance(v, c) <= Distance(v, w)
  {
    if v < 0 then 0
    else if v > 255 then 255
    else v
  }

  function Distance(a: int, b: int): nat {
    if a < b then b - a else a - b
  }

  lemma ClampIdempotent(v: int)
    ensures Clamp255(Clamp255(v)) == Clamp255(v)
  {
  }

  lemma ClampMonotone(v: int, w: int)
    requires v <= w
    ensures Clamp255(v) <= Clamp255(w)
  {
  }

  lemma SelectorTexts()
    ensures IntToString(38) == "38" && IntToString(48) == "48"
    ensures IntToString(5) == "5" && IntToString(2) == "2"
  {
    assert NatToString(3) == "3" by { assert DigitChar(3) == '3'; }
    assert NatToString(4) == "4" by { assert DigitChar(4) == '4'; }
    assert DigitChar(8) == '8';
    assert DigitChar(5) == '5';
    assert DigitChar(2) == '2';
  }

  /** Regrouping of the selector lead, stated on plain strings to keep callers cheap. */
  lemma Fuse(c: string, p: string, q: string, x: string)
    ensures c + p + ";" + q + ";" + x + "m" == c + (p + ";" + q + ";") + x + "m"
  {
  }

  /** The four selector leads that color.go writes as literals in its format strings. */
  lemma SelectorLeads()
    ensures IntToString(38) + ";" + IntToString(5) + ";" == "38;5;"
    ensures IntToString(48) + ";" + IntToString(5) + ";" == "48;5;"
    ensures IntToString(38) + ";" + IntToString(2) + ";" == "38;2;"
    ensures IntToString(48) + ";" + IntToString(2) + ";" == "48;2;"
  {
    SelectorTexts();
  }

  /** An extended-colour list prints as its two-code lead followed by the remaining codes. */
  lemma ExtendedText(selector: int, mode: int, rest: seq<int>, lead: string)
    requires |rest| > 0
    requires lead == IntToString(selector) + ";" + IntToString(mode) + ";"
    ensures SprintAttr([selector, mode] + rest) == Csi + lead + JoinCodes(rest) + "m"
  {
    ExtendedPrefix(selector, mode, rest);
    Fuse(Csi, IntToString(selector), IntToString(mode), JoinCodes(rest));
  }

  /** The `%s38;5;%dm` text (or `48;5`) is the SGR prefix of the three-code list. */
  lemma IndexPrefixText(selector: int, n: int)
    requires selector == 38 || selector == 48
    ensures selector == 38 ==> SprintAttr([38, 5, n]) == Csi + "38;5;" + IntToString(n) + "m"
    ensures selector == 48 ==> SprintAttr([48, 5, n]) == Csi + "48;5;" + IntToString(n) + "m"
  {
    SelectorLeads();
    assert JoinCodes([n]) == IntToString(n);
    ListThree(selector, 5, n);
    if selector == 38 {
      ExtendedText(38, 5, [n], "38;5;");
    } else {
      ExtendedText(48, 5, [n], "48;5;");
    }
  }

  /** The three channels after a given lead. */
  lemma RgbText(selector: int, r: int, g: int, b: int, lead: string)
    requires lead == IntToString(selector) + ";" + IntToString(2) + ";"
    ensures SprintAttr([selector, 2, r, g, b])
         == Csi + lead + (IntToString(r) + ";" + IntToString(g) + ";" + IntToString(b) + "m")
  {
    var joined := JoinCodes([r, g, b]);
    var channels := IntToString(r) + ";" + IntToString(g) + ";" + IntToString(b);
    assert SprintAttr([selector, 2, r, g, b]) == Csi + lead + joined + "m" by {
      ListFive(selector, 2, r, g, b);
      ExtendedText(selector, 2, [r, g, b], lead);
    }
    assert joined == channels by {
      JoinThree(r, g, b);
    }
    Assoc3(Csi + lead, channels, "m");
  }

  /** List-literal and concatenation regroupings, stated on plain variables to keep callers cheap. */
  lemma ListThree(a: int, b: int, c: int)
    ensures [a, b] + [c] == [a, b, c]
  {
  }

  lemma ListFive(a: int, b: int, c: int, d: int, e: int)
    ensures [a, b] + [c, d, e] == [a, b, c, d, e]
  {
  }

  lemma Assoc3(a: string, b: string, c: string)
    ensures a + b + c == a + (b + c)
  {
  }

  /** The `%s38;2;%d;%d;%dm` text (or `48;2`) is the SGR prefix of the five-code list. */
  lemma RgbPrefixText(selector: int, r: int, g: int, b: int)
    requires selector == 38 || selector == 48
    ensures var tail := IntToString(r) + ";" + IntToString(g) + ";" + IntToString(b) + "m";
      && (selector == 38 ==> SprintAttr([38, 2, r, g, b]) == Csi + "38;2;" + tail)
      && (selector == 48 ==> SprintAttr([48, 2, r, g, b]) == Csi + "48;2;" + tail)
  {
    SelectorLeads();
    if selector == 38 {
      RgbText(38, r, g, b, "38;2;");
    } else {
      RgbText(48, r, g, b, "48;2;");
    }
  }

  /** Away from the pass-through cases, `Wrap` is prefix, text, reset. */
  lemma WrapText(s: string, attrs: seq<int>)
    requires |attrs| > 0 && s != []
    ensures Wrap(true, s, attrs) == SprintAttr(attrs) + s + Reset
  {
  }

  /** color.go's `Index`: 256-colour foreground, `ESC[38;5;<n>m`, with `n` clamped. */
  function Index(enabled: bool, idx: int, s: string): (r: string)
    ensures !enabled || s == [] ==> r == s
    ensures r == Wrap(enabled, s, [38, 5, Clamp255(idx)])
  {
    if !enabled || s == [] then s
    else
      var n := Clamp255(idx);
      IndexPrefixText(38, n);
      WrapText(s, [38, 5, n]);
      Csi + "38;5;" + IntToString(n) + "m" + s + Reset
  }

  /** color.go's `BgIndex`: the same with the background selector 48. */
  function BgIndex(enabled: bool, idx: int, s: string): (r: string)
    ensures !enabled || s == [] ==> r == s
    ensures r == Wrap(enabled, s, [48, 5, Clamp255(idx)])
  {
    if !enabled || s == [] then s
    else
      var n := Clamp255(idx);
      IndexPrefixText(48, n);
      WrapText(s, [48, 5, n]);
      Csi + "48;5;" + IntToString(n) + "m" + s + Reset
  }

  /** color.go's `RGB`: true-colour foreground, `ESC[38;2;<r>;<g>;<b>m`, each channel clamped. */
  function RGB(enabled: bool, r: int, g: int, b: int, s: string): (out: string)
    ensures !enabled || s == [] ==> out == s
    ensures out == Wrap(enabled, s, [38, 2, Clamp255(r), Clamp255(g), Clamp255(b)])
  {
    if !enabled || s == [] then s
    else
      var (r', g', b') := (Clamp255(r), Clamp255(g), Clamp255(b));
      RgbPrefixText(38, r', g', b');
      WrapText(s, [38, 2, r', g', b']);
      Csi + "38;2;" + (IntToString(r') + ";" + IntToString(g') + ";" + IntToString(b') + "m") + s + Reset
  }

  /** color.go's `BgRGB`: the same with the background selector 48. */
  function BgRGB(enabled: bool, r: int, g: int, b: int, s: string): (out: string)
    ensures !enabled || s == [] ==> out == s
    ensures out == Wrap(enabled, s, [48, 2, Clamp255(r), Clamp255(g), Clamp255(b)])
  {
    if !enabled || s == [] then s
    else
      var (r', g', b') := (Clamp255(r), Clamp255(g), Clamp255(b));
      RgbPrefixText(48, r', g', b');
      WrapText(s, [48, 2, r', g', b']);
      Csi + "48;2;" + (IntToString(r') + ";" + IntToString(g') + ";" + IntToString(b') + "m") + s + Reset
  }

  /** Out-of-range indices behave exactly like the nearest end of the palette. */
  lemma IndexClamps(enabled: bool, idx: int, s: string)
    ensures Index(enabled, idx, s) == Index(enabled, Clamp255(idx), s)
    ensures BgIndex(enabled, idx, s) == BgIndex(enabled, Clamp255(idx), s)
    ensures Index(enabled, -5, s) == Index(enabled, 0, s)
    ensures Index(enabled, 999, s) == Index(enabled, 255, s)
  {
    ClampIdempotent(idx);
  }

  /** Each channel is clamped on its own. */
  lemma RGBClamps(enabled: bool, r: int, g: int, b: int, s: string)
    ensures RGB(enabled, r, g, b, s) == RGB(enabled, Clamp255(r), Clamp255(g), Clamp255(b), s)
    ensures BgRGB(enabled, r, g, b, s) == BgRGB(enabled, Clamp255(r), Clamp255(g), Clamp255(b), s)
  {
    ClampIdempotent(r);
    ClampIdempotent(g);
    ClampIdempotent(b);
  }

  lemma ChannelTexts()
    ensures IntToString(255) == "255" && IntToString(0) == "0" && IntToString(128) == "128"
  {
    Text255();
    Text128();
    assert NatToString(0) == "0" by { assert DigitChar(0) == '0'; }
  }

  lemma Text255()
    ensures NatToString(255) == "255"
  {
    assert NatToString(2) == "2" by { assert DigitChar(2) == '2'; }
    assert NatToString(25) == "25" by { assert DigitChar(5) == '5'; }
    assert DigitChar(5) == '5';
  }

  lemma Text128()
    ensures NatToString(128) == "128"
  {
    assert NatToString(1) == "1" by { assert DigitChar(1) == '1'; }
    assert NatToString(12) == "12" by { assert DigitChar(2) == '2'; }
    assert DigitChar(8) == '8';
  }

  /** The worked example: channels 300, -10 and 128 print as 255, 0 and 128. */
  lemma RGBExample()
    ensures RGB(true, 300, -10, 128, "x") == Csi + "38;2;255;0;128m" + "x" + Reset
  {
    var prefix := Csi + "38;2;255;0;128m";
    assert SprintAttr([38, 2, 255, 0, 128]) == Csi + "38;2;" + "255;0;128m" by {
      RgbPrefixText(38, 255, 0, 128);
      ExampleTail();
    }
    ExampleLiteral();
    RGBClampsExample("x", prefix);
  }

  /** The pieces of the worked example, one small fact each. */
  lemma ExampleLiteral()
    ensures Csi + "38;2;" + "255;0;128m" == Csi + "38;2;255;0;128m"
  {
    assert "38;2;" + "255;0;128m" == "38;2;255;0;128m";
    Assoc3(Csi, "38;2;", "255;0;128m");
  }

  lemma ExampleTail()
    ensures IntToString(255) + ";" + IntToString(0) + ";" + IntToString(128) + "m" == "255;0;128m"
  {
    ChannelTexts();
  }

  lemma RGBClampsExample(s: string, prefix: string)
    requires s != [] && SprintAttr([38, 2, 255, 0, 128]) == prefix
    ensures RGB(true, 300, -10, 128, s) == prefix + s + Reset
  {
    assert Clamp255(300) == 255 && Clamp255(-10) == 0 && Clamp255(128) == 128;
    WrapText(s, [38, 2, 255, 0, 128]);
  }

  /** Turning the flag off and on again restores the initial behaviour; while off, every formatter is the identity. */
  lemma ToggleRestores(g: Gate, s: string, attrs: seq<int>, idx: int, red: int, green: int, blue: int, a: Attr)
    ensures Enable(Disable(g)) == InitialGate
    ensures Wrap(Disable(g).enabled, s, attrs) == s
    ensures Mix(Disable(g).enabled, s, attrs) == s
    ensures Paint(Disable(g).enabled, a, s) == s
    ensures Index(Disable(g).enabled, idx, s) == s
    ensures BgIndex(Disable(g).enabled, idx, s) == s
    ensures RGB(Disable(g).enabled, red, green, blue, s) == s
    ensures BgRGB(Disable(g).enabled, red, green, blue, s) == s
    ensures Wrap(Enable(Disable(g)).enabled, s, attrs) == Wrap(InitialGate.enabled, s, attrs)
  {
  }
}
