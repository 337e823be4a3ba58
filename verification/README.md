# color: ANSI SGR styling and stripping, modelled in Dafny

This project models `color.go`, a small Go package that colours terminal
text with ANSI "Select Graphic Rendition" escape sequences (ECMA-48,
section 5.4 for the control-sequence form and section 8.3.117 for SGR).
The extended colours `38;5;n`, `48;5;n`, `38;2;r;g;b` and `48;2;r;g;b`
follow the semicolon form of ITU-T T.416, section 13.1.8. The package also
removes such sequences again.

Modules, one per concern of the package:

- `Options`: the `Option` type used for partial results.
- `Decimal`: the decimal rendering done by `strconv.Itoa` and the `%d`
  verb. `ParseInt` is its left inverse.
- `Sgr`: the constants `esc` (`Csi`) and `reset` (`Reset`).
  - `SprintAttr`, the prefix builder.
  - The grammar `IsSgr` of the pattern `\x1b\[[0-9;]*m`.
  - `DecodeSgr`, which reads a prefix back into its code list.
- `Color`: the enable flag (`Gate`, `Enable`, `Disable`), the `Attr`
  constants, `Wrap`, `Mix`, the forty one-attribute helpers (`Paint` plus
  the `Helpers` table), `clamp255`, and `Index`, `BgIndex`, `RGB` and
  `BgRGB`. The package-wide flag is an explicit `enabled` parameter of
  every formatter.
- `Stripper`: `Strip` with the semantics of `regexp.ReplaceAllString`.
  That is, take the leftmost match, drop it, and resume the search right
  after it. `ScanStrip` is a one-pass scanner proved to compute the same
  result. The module also proves the properties of stripping.
- `RoundTrip`: `Strip` undoes every formatter on text without escape
  characters, provided every attribute code is non-negative.

Strings are `seq<char>`. All pattern characters are ASCII, so working on
characters rather than UTF-8 bytes changes nothing the package does.

## Model

| member | source | states |
|---|---|---|
| `Color.Enable` | color.go:22-27 | after `Enable` the flag is on, which is the state the package initialiser leaves |
| `Color.Disable` | color.go:29-30 | after `Disable` the flag is off, which differs from the initial state |
| `Color.ToggleRestores` | color.go:20-30 | disabling then enabling gives back the initial flag; while the flag is off, `Wrap`, `Mix`, every named helper, `Index`, `BgIndex`, `RGB` and `BgRGB` return their text unchanged |
| `Color.ResetSequence` | color.go:33-39 | `Reset()` is exactly the prefix `SprintAttr` builds for the single code 0, so a well-formed SGR sequence that decodes to `[0]` |
| `Color.Code` | color.go:44-105 | style constants lie in 0..9 and never use 6; the four colour bands are 30..37, 90..97, 40..47 and 100..107; each band holds exactly its own kind of constant |
| `Color.CodeInjective` | color.go:44-105 | no two `Attr` constants share a code |
| `Decimal.NatToString` | color.go:118 | the digit part of `strconv.Itoa`: at least one digit, no leading zero except for `0` itself, and the digits read back as the number |
| `Decimal.IntToString` | color.go:118 | `strconv.Itoa` yields digits for non-negative values and `-` then digits for negative ones, in canonical form: no leading zero except for `0` itself |
| `Decimal.IntToStringParses` | color.go:118 | parsing the decimal rendering gives back the integer |
| `Decimal.IntToStringInjective` | color.go:118 | distinct integers never render the same |
| `Sgr.JoinCodes` | color.go:114-119 | the codes in decimal, in order, with one `;` between neighbours; `JoinCodesSeparators` and `JoinCodesParamChars` state its separator count and alphabet |
| `Sgr.IsSgr` | color.go:243 | the pattern `\x1b\[[0-9;]*m` matched against a whole text: `ESC [`, digits and semicolons only, then `m`; `MatchAtSound` and `MatchAtComplete` tie it to the matcher |
| `Sgr.SprintAttr` | color.go:107-122 | the result is empty exactly for an empty list; otherwise it starts with `ESC [`, ends with `m`, and has at least four characters |
| `Sgr.SprintAttrSeparators` | color.go:114-119 | a list of n codes is joined with exactly n - 1 semicolons |
| `Sgr.JoinCodesParamChars` | color.go:114-119 | the joined codes use only digits and `;` exactly when no code is negative |
| `Sgr.SprintAttrDecodes` | color.go:108-121 | decoding the prefix gives back the same codes in the same order, with none dropped, merged or reordered |
| `Sgr.SprintAttrIsSgr` | color.go:118 | the prefix matches the `Strip` pattern exactly when the list is non-empty and has no negative code |
| `Sgr.SprintAttrExamples` | color.go:107-122 | `[]` gives the empty text, `[31]` gives `ESC[31m` and `[31, 1]` gives `ESC[31;1m` |
| `Color.Wrap` | color.go:124-130 | the text comes back unchanged when the flag is off, no attribute is given, or the text is empty; otherwise the result starts with `ESC [` and ends with the reset sequence |
| `Color.WrapDecodes` | color.go:129 | a wrapped text splits into a prefix that decodes to the given attributes, then the text, then the reset sequence |
| `Color.Mix` | color.go:237-238 | the text comes back unchanged when the flag is off, no attribute is given, or the text is empty; otherwise it is framed by `ESC [` in front and the reset sequence at the end |
| `Color.MixDecodes` | color.go:238 | a mixed text splits into a prefix that decodes to exactly the given attributes, then the text, then the reset |
| `Color.Paint` | color.go:190-235 | each named helper passes the text through when the flag is off or the text is empty; otherwise it gives `ESC[<code>m`, the text, and the reset |
| `Color.HelpersCatalogue` | color.go:188-235 | there are forty helpers, one for every `Attr` constant except `ResetAttr` |
| `Color.Clamp255` | color.go:178-186 | the result lies in 0..255, equals its input on that range, and is the point of 0..255 nearest to the input |
| `Color.ClampIdempotent` | color.go:178-186 | clamping twice is clamping once |
| `Color.ClampMonotone` | color.go:178-186 | clamping preserves order |
| `Color.IndexPrefixText` | color.go:144-157 | the literal `%s38;5;%dm` and `%s48;5;%dm` texts are the SGR prefixes of the code lists `[38, 5, n]` and `[48, 5, n]` |
| `Color.RgbPrefixText` | color.go:166-175 | the literal `%s38;2;%d;%d;%dm` and `%s48;2;%d;%d;%dm` texts are the SGR prefixes of `[38, 2, r, g, b]` and `[48, 2, r, g, b]` |
| `Color.Index` | color.go:134-145 | pass-through when the flag is off or the text is empty; otherwise the same as `Wrap` with the codes `38;5;clamp(idx)` |
| `Color.BgIndex` | color.go:147-158 | the same as `Index` with selector 48 |
| `Color.RGB` | color.go:160-167 | pass-through when the flag is off or the text is empty; otherwise the same as `Wrap` with the codes `38;2;` and the three clamped channels |
| `Color.BgRGB` | color.go:169-176 | the same as `RGB` with selector 48 |
| `Color.IndexClamps` | color.go:139-143 | an out-of-range index behaves as its clamped value: `Index(-5)` is `Index(0)` and `Index(999)` is `Index(255)` |
| `Color.RGBClamps` | color.go:165-175 | each channel is clamped on its own |
| `Color.RGBExample` | color.go:160-167 | `RGB(300, -10, 128, "x")` is `ESC[38;2;255;0;128m` followed by `x` and the reset |
| `Stripper.ParamRunSound` | color.go:243 | the `[0-9;]*` run holds only digits and semicolons, and stops at the first other character |
| `Stripper.MatchAt` | color.go:243 | the pattern matched at one position: a match is at least three characters long and lies inside the text |
| `Stripper.MatchAtSound` | color.go:243 | what the matcher finds at a position is an occurrence of the pattern |
| `Stripper.MatchAtComplete` | color.go:243 | every occurrence of the pattern at a position is the one the matcher finds, so the match there is unique |
| `Stripper.Leftmost` | color.go:246 | the leftmost-match search: the match found starts at or after the search position, is at least three characters long, and lies inside the text |
| `Stripper.LeftmostSound` | color.go:246 | the search result is a match |
| `Stripper.LeftmostNone` | color.go:246 | the search finds nothing exactly when no match starts at or after the search position |
| `Stripper.LeftmostFirst` | color.go:246 | no match starts between the search position and the match found |
| `Stripper.ReplaceFrom` | color.go:246 | the replace-all loop from a search position (copy up to the leftmost match, drop it, resume after it); the result is no longer than the rest of the text |
| `Stripper.Strip` | color.go:245-247 | stripping never lengthens the text |
| `Stripper.ReplaceFromIsScan` | color.go:243-247 | from any search position, the replace-all semantics and the character scanner give the same text |
| `Stripper.StripIsScan` | color.go:245-247 | `Strip` equals the scanner run from the start |
| `Stripper.StripAtMatch` | color.go:243-247 | a match at the front is dropped, and stripping resumes right after it |
| `Stripper.StripNoMatch` | color.go:243-247 | without a match at the front, the first character is kept and the rest is stripped |
| `Stripper.ScanStrip` | color.go:245-247 | the one-pass scanner returns exactly `Strip` of its input |
| `Stripper.Step` | color.go:243 | one scanner step keeps a single character exactly when no match starts there; otherwise it skips exactly the match |
| `Stripper.SkipParams` | color.go:243 | the index of the first character at or after `k` that is neither a digit nor `;` |
| `Stripper.ScanSubsequence` | color.go:243-247 | scanning from a position yields a subsequence of the rest of the text |
| `Stripper.StripSubsequence` | color.go:245-247 | the output of `Strip` is a subsequence of its input |
| `Stripper.ScanFixedPoints` | color.go:243-247 | the scanner copies the rest of the text unchanged exactly when no match starts in it |
| `Stripper.StripFixedPoints` | color.go:245-247 | `Strip` leaves a text unchanged exactly when no match occurs in it |
| `Stripper.StripNoEsc` | color.go:245-247 | a text with no escape character is unchanged, so a bare `[31m` survives |
| `Stripper.StripKeepsPlainPrefix` | color.go:245-247 | escape-free text in front is copied verbatim before the stripped rest |
| `Stripper.StripDropsSgrPrefix` | color.go:243-247 | a complete SGR sequence at the front is removed, whatever follows it |
| `Stripper.StripResetAlone` | color.go:243-247 | the reset sequence strips to nothing |
| `Stripper.StripNestedOnce` | color.go:243-247 | `ESC[ESC[31mm` strips to `ESC[m` in one pass |
| `Stripper.StripNotIdempotent` | color.go:245-247 | stripping `ESC[ESC[31mm` a second time changes it again, so `Strip` is not idempotent |
| `RoundTrip.WrapStripRoundTrip` | color.go:124-130 | `Strip` undoes `Wrap` on escape-free text when every attribute is non-negative |
| `RoundTrip.IndexStripRoundTrip` | color.go:134-158 | `Strip` undoes `Index` and `BgIndex` on escape-free text, for every index |
| `RoundTrip.RGBStripRoundTrip` | color.go:160-176 | `Strip` undoes `RGB` and `BgRGB` on escape-free text, for every channel value |
| `RoundTrip.MixStripRoundTrip` | color.go:237-238 | `Strip` undoes `Mix` on escape-free text when every attribute is non-negative |
| `RoundTrip.PaintStripRoundTrip` | color.go:190-235 | `Strip` undoes every named helper on escape-free text |
| `RoundTrip.NegativeAttrResidue` | color.go:118 | `Wrap("x", -1)` leaves `ESC[-1mx` after stripping, because the `-` does not match the pattern |
| `RoundTrip.NegativeResidueText` | color.go:243 | `ESC [` followed by a text that starts with `-` is not a match; only the reset behind it is removed |

## Left out

- Atomicity of the enable flag: the `atomic.Bool` and its use from several goroutines are not modelled. The flag is a plain `bool` parameter, and `Gate` models its initial value and its two setters.
- Go's fixed-width `int`: integers are unbounded. `Attr` codes and indices near the limits of a machine word are therefore not modelled. No code in the package does arithmetic on them beyond clamping.
- UTF-8: strings are sequences of characters, not bytes. The pattern is pure ASCII, and unmatched text is copied verbatim either way.
- `fmt.Sprintf`, `strconv.Itoa`, `strings.Builder` and the `regexp` engine are library code. They are replaced by the decimal rendering in `Decimal` and a dedicated matcher for the one fixed pattern. No general regular-expression engine is modelled.
- Idempotence of `Strip`: stripping is not idempotent in the code, so no idempotence lemma is stated. `Stripper.StripNotIdempotent` proves the counterexample.
- Negative `Attr` values: `Wrap` accepts them and prints `-N`, which `Strip` does not remove. The round-trip lemmas therefore require non-negative codes, and `RoundTrip.NegativeAttrResidue` shows the residue.
- `Index` and `BgIndex` clamp inline rather than through `clamp255`. The inline code has the same three branches, so both are modelled with `Clamp255`.
- The forty named helpers are modelled as one function, `Paint`, over the `Attr` constant each helper passes to `Wrap`, plus the `Helpers` table listing those constants in declaration order.
