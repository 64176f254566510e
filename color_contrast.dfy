/**
 * The contrast check of the color input field (`$scope.isDark`): a bound
 * color value is "dark" when it is a `#RRGGBB` string whose weighted
 * luminance, with the W3C relative-luminance coefficients applied to the raw
 * 0-255 components, is at most 153.
 */
module ColorContrast {

  import opened Options

  /** One color channel, as `parseInt` yields it from two hexadecimal digits. */
  type Component = n: nat | n < 256

  datatype Rgb = Rgb(red: Component, green: Component, blue: Component)

  /** The character class `[0-9a-fA-F]`. */
  predicate IsHexDigit(c: char) {
    '0' <= c <= '9' || 'a' <= c <= 'f' || 'A' <= c <= 'F'
  }

  predicate AllHexDigits(ds: string) {
    forall i :: 0 <= i < |ds| ==> IsHexDigit(ds[i])
  }

  /** The value of one hexadecimal digit, in either case. */
  function DigitValue(c: char): (v: nat)
    requires IsHexDigit(c)
    ensures v < 16
  {
    if '0' <= c <= '9' then c as nat - '0' as nat
    else if 'a' <= c <= 'f' then c as nat - 'a' as nat + 10
    else c as nat - 'A' as nat + 10
  }

  function Pow16(n: nat): (p: nat)
    ensures p > 0
  {
    if n == 0 then 1 else 16 * Pow16(n - 1)
  }

  /** `parseInt(ds, 16)` on a string made only of hexadecimal digits:
      the digits read most significant first. */
  function ParseHex(ds: string): (v: nat)
    requires AllHexDigits(ds)
    ensures v < Pow16(|ds|)
    decreases |ds|
  {
    if ds == [] then 0
    else
      var init := ds[..|ds| - 1];
      assert AllHexDigits(init) by {
        forall i | 0 <= i < |init| ensures IsHexDigit(init[i]) {
          assert init[i] == ds[i];
        }
      }
      16 * ParseHex(init) + DigitValue(ds[|ds| - 1])
  }

  /** The anchored pattern `^#([0-9a-fA-F]{2})([0-9a-fA-F]{2})([0-9a-fA-F]{2})$`. */
  predicate MatchesHexColor(s: string) {
    |s| == 7 && s[0] == '#' && AllHexDigits(s[1..])
  }

  /** Two digits of a matching string, parsed as one channel. */
  function ParseChannel(s: string, at: nat): (v: Component)
    requires MatchesHexColor(s) && at in {1, 3, 5}
  {
    var ds := s[at..at + 2];
    assert IsHexDigit(ds[0]) && IsHexDigit(ds[1]) by {
      assert ds[0] == s[1..][at - 1] && ds[1] == s[1..][at];
    }
    assert Pow16(2) == 256;
    ParseHex(ds)
  }

  /** The regular-expression match followed by the three `parseInt` calls:
      `None` when the string is not exactly `#` and six hexadecimal digits. */
  function ParseColor(s: string): (r: Option<Rgb>)
    ensures r.Some? <==> MatchesHexColor(s)
    ensures r.Some? ==>
      && (forall i :: 1 <= i < 7 ==> IsHexDigit(s[i]))
      && r.value.red == 16 * DigitValue(s[1]) + DigitValue(s[2])
      && r.value.green == 16 * DigitValue(s[3]) + DigitValue(s[4])
      && r.value.blue == 16 * DigitValue(s[5]) + DigitValue(s[6])
  {
    if MatchesHexColor(s) then
      assert forall i :: 1 <= i < 7 ==> IsHexDigit(s[i]) by {
        forall i | 1 <= i < 7 ensures IsHexDigit(s[i]) {
          assert s[i] == s[1..][i - 1];
        }
      }
      ChannelValue(s, 1);
      ChannelValue(s, 3);
      ChannelValue(s, 5);
      Some(Rgb(ParseChannel(s, 1), ParseChannel(s, 3), ParseChannel(s, 5)))
    else None
  }

  /** One channel is the value of its two digits, most significant first. */
  lemma ChannelValue(s: string, at: nat)
    requires MatchesHexColor(s) && at in {1, 3, 5}
    ensures IsHexDigit(s[at]) && IsHexDigit(s[at + 1])
    ensures ParseChannel(s, at) == 16 * DigitValue(s[at]) + DigitValue(s[at + 1])
  {
    var ds := s[at..at + 2];
    assert ds[0] == s[1..][at - 1] && ds[1] == s[1..][at];
    TwoDigits(ds);
  }

  /** The luminance computed by the source, in exact arithmetic. */
  function Luminance(c: Rgb): real {
    0.2126 * c.red as real + 0.7152 * c.green as real + 0.0722 * c.blue as real
  }

  /** 153 is 0.6 on the 0-255 scale. */
  const DarkLimit: real := 153.0

  /** The same luminance scaled by 10000, so that it is an integer. */
  function ScaledLuminance(c: Rgb): nat {
    2126 * c.red + 7152 * c.green + 722 * c.blue
  }

  const ScaledDarkLimit: nat := 1530000

  /** `$scope.isDark()` for the bound model value: false when the model is
      undefined, empty or not `#RRGGBB`; otherwise whether white text would
      contrast better than black. */
  predicate IsDark(model: Option<string>): (dark: bool)
    ensures dark ==> model.Some? && MatchesHexColor(model.value)
  {
    match model
    case None => false
    case Some(s) =>
      if s == [] then false
      else
        match ParseColor(s)
        case None => false
        case Some(c) => Luminance(c) <= DarkLimit
  }

  // ---------------------------------------------------------------------
  // Lower-case hexadecimal rendering, the inverse of ParseColor.

  function Digit(d: nat): (c: char)
    requires d < 16
    ensures IsHexDigit(c) && DigitValue(c) == d
  {
    if d < 10 then ('0' as nat + d) as char else ('a' as nat + d - 10) as char
  }

  /** Renders a color as `#rrggbb`. */
  function FormatColor(c: Rgb): (s: string)
  {
    ['#', Digit(c.red / 16), Digit(c.red % 16),
          Digit(c.green / 16), Digit(c.green % 16),
          Digit(c.blue / 16), Digit(c.blue % 16)]
  }

  /** ASCII lower-casing, as a case-insensitive comparison would apply it. */
  function LowerChar(c: char): char {
    if 'A' <= c <= 'Z' then (c as nat - 'A' as nat + 'a' as nat) as char else c
  }

  function ToLower(s: string): (t: string)
    ensures |t| == |s| && forall i :: 0 <= i < |s| ==> t[i] == LowerChar(s[i])
  {
    seq(|s|, i requires 0 <= i < |s| => LowerChar(s[i]))
  }

  lemma DigitOfValue(c: char)
    requires IsHexDigit(c)
    ensures Digit(DigitValue(c)) == LowerChar(c)
  {
  }

  lemma LowerDigit(c: char)
    ensures IsHexDigit(LowerChar(c)) <==> IsHexDigit(c)
    ensures IsHexDigit(c) ==> DigitValue(LowerChar(c)) == DigitValue(c)
  {
  }

  lemma TwoDigits(ds: string)
    requires |ds| == 2 && AllHexDigits(ds)
    ensures ParseHex(ds) == 16 * DigitValue(ds[0]) + DigitValue(ds[1])
  {
    assert ds[..1][..0] == [];
  }

  /** Every color is rendered as a matching string that parses back to it. */
  lemma {:induction false} ParseFormat(c: Rgb)
    ensures MatchesHexColor(FormatColor(c))
    ensures ParseColor(FormatColor(c)) == Some(c)
  {
    var s := FormatColor(c);
    assert AllHexDigits(s[1..]) by {
      forall i | 0 <= i < 6 ensures IsHexDigit(s[1..][i]) {
        assert s[1..][i] == s[i + 1];
      }
    }
    TwoDigits(s[1..3]);
    TwoDigits(s[3..5]);
    TwoDigits(s[5..7]);
  }

  /** The two digits of one channel of a matching string, read back from its value. */
  lemma ChannelDigits(s: string, at: nat)
    requires MatchesHexColor(s) && at in {1, 3, 5}
    ensures Digit(ParseChannel(s, at) / 16) == LowerChar(s[at])
    ensures Digit(ParseChannel(s, at) % 16) == LowerChar(s[at + 1])
  {
    ChannelValue(s, at);
    DigitOfValue(s[at]);
    DigitOfValue(s[at + 1]);
  }

  /** A matching string is, up to case, the rendering of the color it parses
      to: the parse loses nothing but the case of the digits. */
  lemma FormatParse(s: string)
    requires MatchesHexColor(s)
    ensures ParseColor(s).Some?
    ensures FormatColor(ParseColor(s).value) == ToLower(s)
  {
    ChannelDigits(s, 1);
    ChannelDigits(s, 3);
    ChannelDigits(s, 5);
    var f := FormatColor(ParseColor(s).value);
    forall i | 0 <= i < 7 ensures f[i] == ToLower(s)[i] {
    }
  }

  /** Upper- and lower-case digits give the same channel values, and a
      string matches the pattern exactly when its lower-case form does. */
  lemma {:induction false} ParseColorIgnoresCase(s: string)
    ensures ParseColor(ToLower(s)) == ParseColor(s)
  {
    var t := ToLower(s);
    forall i | 0 <= i < |s| ensures IsHexDigit(t[i]) <==> IsHexDigit(s[i]) {
      LowerDigit(s[i]);
    }
    if MatchesHexColor(s) {
      assert MatchesHexColor(t) by {
        forall i | 0 <= i < 6 ensures IsHexDigit(t[1..][i]) {
          assert t[1..][i] == t[i + 1] && s[1..][i] == s[i + 1];
        }
      }
      FormatParse(s);
      FormatParse(t);
      assert ToLower(t) == t;
      ParseFormat(ParseColor(s).value);
      ParseFormat(ParseColor(t).value);
    } else if MatchesHexColor(t) {
      assert MatchesHexColor(s) by {
        forall i | 0 <= i < 6 ensures IsHexDigit(s[1..][i]) {
          assert t[1..][i] == t[i + 1] && s[1..][i] == s[i + 1];
        }
      }
    }
  }

  /** Two strings denote the same color exactly when they are equal up to case. */
  lemma SameColorIffSameLower(s: string, t: string)
    requires MatchesHexColor(s) && MatchesHexColor(t)
    ensures ParseColor(s) == ParseColor(t) <==> ToLower(s) == ToLower(t)
  {
    FormatParse(s);
    FormatParse(t);
    ParseColorIgnoresCase(s);
    ParseColorIgnoresCase(t);
  }

  // ---------------------------------------------------------------------
  // The threshold.

  /** The exact-integer form of the threshold. */
  lemma IsDarkScaled(model: Option<string>)
    ensures IsDark(model) <==>
      model.Some? && ParseColor(model.value).Some? &&
      ScaledLuminance(ParseColor(model.value).value) <= ScaledDarkLimit
  {
    if model.Some? && ParseColor(model.value).Some? {
      var c := ParseColor(model.value).value;
      assert Luminance(c) * 10000.0 == ScaledLuminance(c) as real;
    }
  }

  /** An undefined model, or one that is not exactly `#` and six hexadecimal
      digits, is never dark. */
  lemma MalformedIsNotDark(model: Option<string>)
    requires model.None? || !MatchesHexColor(model.value)
    ensures !IsDark(model)
  {
  }

  /** Every coefficient is positive: raising any channel never turns a
      color that is not dark into a dark one. */
  lemma IsDarkAntitone(s: string, t: string)
    requires ParseColor(s).Some? && ParseColor(t).Some?
    requires ParseColor(s).value.red <= ParseColor(t).value.red
    requires ParseColor(s).value.green <= ParseColor(t).value.green
    requires ParseColor(s).value.blue <= ParseColor(t).value.blue
    ensures IsDark(Some(t)) ==> IsDark(Some(s))
  {
  }

  /** Values that are not `#RRGGBB` are never dark. */
  lemma MalformedExamples()
    ensures !IsDark(None) && !IsDark(Some(""))
    ensures !IsDark(Some("red")) && !IsDark(Some("#ZZZZZZ"))
    ensures !IsDark(Some("#12345")) && !IsDark(Some("#1234567"))
  {
    assert !IsHexDigit("#ZZZZZZ"[1..][0]);
  }

  /** The channels of a lower-case `#rrggbb` literal, through its rendering. */
  lemma ParsesTo(s: string, c: Rgb)
    requires FormatColor(c) == s
    ensures ParseColor(s) == Some(c)
  {
    ParseFormat(c);
  }

  /** Black is dark and white, in either case, is not. */
  lemma BlackAndWhite()
    ensures IsDark(Some("#000000"))
    ensures !IsDark(Some("#FFFFFF")) && !IsDark(Some("#ffffff"))
  {
    ParsesTo("#000000", Rgb(0, 0, 0));
    ParsesTo("#ffffff", Rgb(255, 255, 255));
    ParseColorIgnoresCase("#FFFFFF");
    assert ToLower("#FFFFFF") == "#ffffff";
  }

  /** `#999999` has luminance exactly 153 and is dark, since the threshold is
      inclusive; the next gray, `#9a9a9a`, is not. */
  lemma GrayBoundary()
    ensures IsDark(Some("#999999")) && !IsDark(Some("#9a9a9a"))
  {
    ParsesTo("#999999", Rgb(153, 153, 153));
    ParsesTo("#9a9a9a", Rgb(154, 154, 154));
  }
}
