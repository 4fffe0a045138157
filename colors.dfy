/** The colour analog of the exchange (app.py:26-39, app.py:105-134): colour
    codes #RRGGBB, their channels, the channel-wise average of two colours,
    and the handlers that validate and mix them. */
module Colors {
  import opened Results

  /** A colour channel, 0 to 255. */
  type Channel = v: nat | v < 256

  datatype Rgb = Rgb(r: Channel, g: Channel, b: Channel)

  predicate IsHexDigit(c: char) {
    '0' <= c <= '9' || 'a' <= c <= 'f' || 'A' <= c <= 'F'
  }

  /** validate_hex: '#' followed by exactly six hexadecimal digits, in either case. */
  predicate ValidateHex(code: string) {
    |code| == 7 && code[0] == '#' && forall i :: 1 <= i < 7 ==> IsHexDigit(code[i])
  }

  function HexDigitValue(c: char): (v: nat)
    requires IsHexDigit(c)
    ensures v < 16
  {
    if '0' <= c <= '9' then c as int - '0' as int
    else if 'a' <= c <= 'f' then c as int - 'a' as int + 10
    else c as int - 'A' as int + 10
  }

  /** The lower-case hexadecimal digit of v, as "%x" prints it. */
  function LowerHexDigit(v: nat): (c: char)
    requires v < 16
    ensures IsHexDigit(c) && HexDigitValue(c) == v && !('A' <= c <= 'Z')
  {
    if v < 10 then ('0' as int + v) as char else ('a' as int + v - 10) as char
  }

  /** Python's str.lower() on the characters a colour code can hold. */
  function ToLower(c: char): char {
    if 'A' <= c <= 'Z' then (c as int - 'A' as int + 'a' as int) as char else c
  }

  function Lower(s: string): (t: string)
    ensures |t| == |s| && forall i :: 0 <= i < |s| ==> t[i] == ToLower(s[i])
  {
    seq(|s|, i requires 0 <= i < |s| => ToLower(s[i]))
  }

  /** No upper-case letter in s. */
  predicate IsLower(s: string) {
    forall i :: 0 <= i < |s| ==> ToLower(s[i]) == s[i]
  }

  /** str.lstrip("#"): every leading '#' removed. */
  function LStripHash(s: string): (t: string)
    ensures |t| <= |s| && t == s[|s| - |t|..]
    ensures forall i :: 0 <= i < |s| - |t| ==> s[i] == '#'
    ensures t == [] || t[0] != '#'
    decreases |s|
  {
    if |s| > 0 && s[0] == '#' then LStripHash(s[1..]) else s
  }

  /** int(hi + lo, 16). */
  function ParseByte(hi: char, lo: char): Channel
    requires IsHexDigit(hi) && IsHexDigit(lo)
  {
    16 * HexDigitValue(hi) + HexDigitValue(lo)
  }

  /** hex_to_rgb on a valid code: the three pairs of digits after the '#',
      each read in base 16. (HexToRgbStripsOneHash: on a valid code,
      lstrip("#") removes exactly that one '#'.) */
  function HexToRgb(code: string): (c: Rgb)
    requires ValidateHex(code)
  {
    Rgb(ParseByte(code[1], code[2]), ParseByte(code[3], code[4]), ParseByte(code[5], code[6]))
  }

  /** On a valid code, h.lstrip("#") is the six digits, so h[0:2], h[2:4]
      and h[4:6] are the pairs HexToRgb reads. */
  lemma HexToRgbStripsOneHash(code: string)
    requires ValidateHex(code)
    ensures LStripHash(code) == code[1..] && |LStripHash(code)| == 6
  {
    assert LStripHash(code[1..]) == code[1..];
  }

  /** "%02x": a channel as two lower-case hexadecimal digits. */
  function ByteToHex(v: Channel): (s: string)
    ensures |s| == 2 && IsHexDigit(s[0]) && IsHexDigit(s[1])
    ensures ParseByte(s[0], s[1]) == v
  {
    [LowerHexDigit(v / 16), LowerHexDigit(v % 16)]
  }

  /** rgb_to_hex, "#%02x%02x%02x": a valid colour code. */
  function RgbToHex(c: Rgb): (code: string)
    ensures ValidateHex(code)
  {
    var r, g, b := ByteToHex(c.r), ByteToHex(c.g), ByteToHex(c.b);
    ['#', r[0], r[1], g[0], g[1], b[0], b[1]]
  }

  /** rgb_to_hex prints lower-case digits only. */
  lemma RgbToHexIsLower(c: Rgb)
    ensures IsLower(RgbToHex(c))
  {
  }

  /** Reading back a printed colour gives the colour. */
  lemma HexToRgbOfRgbToHex(c: Rgb)
    ensures HexToRgb(RgbToHex(c)) == c
  {
  }

  /** Printing a parsed colour gives back its code in lower case. */
  lemma RgbToHexOfHexToRgb(code: string)
    requires ValidateHex(code)
    ensures RgbToHex(HexToRgb(code)) == Lower(code)
  {
    PairRoundTrip(code[1], code[2]);
    PairRoundTrip(code[3], code[4]);
    PairRoundTrip(code[5], code[6]);
    var out, low := RgbToHex(HexToRgb(code)), Lower(code);
    assert out[0] == low[0] && out[1] == low[1] && out[2] == low[2] && out[3] == low[3];
    assert out[4] == low[4] && out[5] == low[5] && out[6] == low[6];
  }

  /** A lower-case colour code is determined by its channels. */
  lemma LowerCodeDeterminedByChannels(x: string, y: string)
    requires ValidateHex(x) && ValidateHex(y) && IsLower(x) && IsLower(y)
    requires HexToRgb(x) == HexToRgb(y)
    ensures x == y
  {
    RgbToHexOfHexToRgb(x);
    RgbToHexOfHexToRgb(y);
    assert Lower(x) == x;
    assert Lower(y) == y;
  }

  /** Splitting a parsed pair of digits gives the digits back, in lower case. */
  lemma PairRoundTrip(hi: char, lo: char)
    requires IsHexDigit(hi) && IsHexDigit(lo)
    ensures ByteToHex(ParseByte(hi, lo)) == [ToLower(hi), ToLower(lo)]
  {
    var v := ParseByte(hi, lo);
    assert v / 16 == HexDigitValue(hi) && v % 16 == HexDigitValue(lo);
    DigitRoundTrip(hi);
    DigitRoundTrip(lo);
  }

  lemma DigitRoundTrip(c: char)
    requires IsHexDigit(c)
    ensures LowerHexDigit(HexDigitValue(c)) == ToLower(c)
  {
  }

  /** floor((x + y) / 2), the // 2 of mix_colors. */
  function Average(x: Channel, y: Channel): Channel {
    (x + y) / 2
  }

  /** mix_colors: each channel of the result is the floor of the average of
      the two colours' channels, independently of the other channels. */
  function MixColors(a: string, b: string): (m: string)
    requires ValidateHex(a) && ValidateHex(b)
    ensures ValidateHex(m) && IsLower(m)
    ensures var ca, cb, cm := HexToRgb(a), HexToRgb(b), HexToRgb(m);
      && cm.r == (ca.r + cb.r) / 2
      && cm.g == (ca.g + cb.g) / 2
      && cm.b == (ca.b + cb.b) / 2
  {
    var ca, cb := HexToRgb(a), HexToRgb(b);
    var c := Rgb(Average(ca.r, cb.r), Average(ca.g, cb.g), Average(ca.b, cb.b));
    var m := RgbToHex(c);
    HexToRgbOfRgbToHex(c);
    RgbToHexIsLower(c);
    assert HexToRgb(m) == c;
    m
  }

  /** Mixing is commutative. */
  lemma MixCommutative(a: string, b: string)
    requires ValidateHex(a) && ValidateHex(b)
    ensures MixColors(a, b) == MixColors(b, a)
  {
  }

  /** Mixing a colour with itself gives the colour, in lower case. */
  lemma MixIdempotent(a: string)
    requires ValidateHex(a)
    ensures MixColors(a, a) == Lower(a)
  {
    var c := HexToRgb(a);
    assert Rgb(Average(c.r, c.r), Average(c.g, c.g), Average(c.b, c.b)) == c;
    assert MixColors(a, a) == RgbToHex(c);
    RgbToHexOfHexToRgb(a);
  }

  /** Every channel of a mix lies between the two colours' channels. */
  lemma MixBetween(a: string, b: string)
    requires ValidateHex(a) && ValidateHex(b)
    ensures var ca, cb, cm := HexToRgb(a), HexToRgb(b), HexToRgb(MixColors(a, b));
      && (ca.r <= cm.r <= cb.r || cb.r <= cm.r <= ca.r)
      && (ca.g <= cm.g <= cb.g || cb.g <= cm.g <= ca.g)
      && (ca.b <= cm.b <= cb.b || cb.b <= cm.b <= ca.b)
  {
  }

  /** Black and white mix to #7f7f7f: the average is rounded down. */
  lemma MixBlackWhite()
    ensures MixColors("#000000", "#ffffff") == "#7f7f7f"
  {
    BlackWhiteGrey();
  }

  /** The colours of the examples, parsed and printed. */
  lemma BlackWhiteGrey()
    ensures ValidateHex("#000000") && HexToRgb("#000000") == Rgb(0, 0, 0)
    ensures ValidateHex("#ffffff") && HexToRgb("#ffffff") == Rgb(255, 255, 255)
    ensures RgbToHex(Rgb(127, 127, 127)) == "#7f7f7f"
    ensures RgbToHex(Rgb(63, 63, 63)) == "#3f3f3f"
  {
    ParseBlackWhite();
    PrintGrey(127, '7', 'f');
    PrintGrey(63, '3', 'f');
  }

  lemma ParseBlackWhite()
    ensures ValidateHex("#000000") && HexToRgb("#000000") == Rgb(0, 0, 0)
    ensures ValidateHex("#ffffff") && HexToRgb("#ffffff") == Rgb(255, 255, 255)
  {
    var black, white := "#000000", "#ffffff";
    assert black[1] == black[2] == black[3] == black[4] == black[5] == black[6] == '0';
    assert white[1] == white[2] == white[3] == white[4] == white[5] == white[6] == 'f';
  }

  /** A grey whose channel prints as the two digits hi, lo. */
  lemma PrintGrey(v: Channel, hi: char, lo: char)
    requires v / 16 < 10 && hi == ('0' as int + v / 16) as char
    requires v % 16 >= 10 && lo == ('a' as int + v % 16 - 10) as char
    ensures RgbToHex(Rgb(v, v, v)) == ['#', hi, lo, hi, lo, hi, lo]
  {
    assert ByteToHex(v) == [hi, lo];
  }

  /** The answer of the /mix handler. */
  datatype MixResponse = MixResponse(mixedColor: string, components: seq<string>)

  /** The answer of the /final handler. */
  datatype FinalResponse = FinalResponse(finalColor: string, components: seq<string>, intermediate: string)

  /** set_base: a valid base colour is confirmed unchanged. */
  function SetBase(color: string): (r: Result<string>)
    ensures r.Ok? <==> ValidateHex(color)
    ensures r.Ok? ==> r.value == color
    ensures r.Err? ==> r.error == InvalidColor
  {
    if !ValidateHex(color) then Err(InvalidColor) else Ok(color)
  }

  /** mix: both colours valid, the mix of the two, and the two inputs as
      given, in order. */
  function Mix(color1: string, color2: string): (r: Result<MixResponse>)
    ensures r.Ok? <==> ValidateHex(color1) && ValidateHex(color2)
    ensures r.Ok? ==> r.value.components == [color1, color2]
    ensures r.Ok? ==> r.value.mixedColor == MixColors(color1, color2)
    ensures r.Err? ==> r.error == InvalidColor
  {
    if !(ValidateHex(color1) && ValidateHex(color2)) then Err(InvalidColor)
    else Ok(MixResponse(MixColors(color1, color2), [color1, color2]))
  }

  /** final_mix: all three colours valid; the two secrets are mixed first
      and that intermediate colour is mixed with the base; the components are
      the inputs as given, in the order base, alice, bob. */
  function FinalMix(base: string, alice: string, bob: string): (r: Result<FinalResponse>)
    ensures r.Ok? <==> ValidateHex(base) && ValidateHex(alice) && ValidateHex(bob)
    ensures r.Ok? ==> r.value.components == [base, alice, bob]
    ensures r.Ok? ==> r.value.intermediate == MixColors(alice, bob)
    ensures r.Ok? ==> r.value.finalColor == MixColors(base, r.value.intermediate)
    ensures r.Err? ==> r.error == InvalidColor
  {
    if !(ValidateHex(base) && ValidateHex(alice) && ValidateHex(bob)) then Err(InvalidColor)
    else
      var inner := MixColors(alice, bob);
      Ok(FinalResponse(MixColors(base, inner), [base, alice, bob], inner))
  }

  /** Each channel of the final colour is (base + (alice + bob) / 2) / 2,
      rounded down at each step. */
  lemma FinalMixChannels(base: string, alice: string, bob: string)
    requires ValidateHex(base) && ValidateHex(alice) && ValidateHex(bob)
    ensures var c0, c1, c2 := HexToRgb(base), HexToRgb(alice), HexToRgb(bob);
      var cf := HexToRgb(FinalMix(base, alice, bob).value.finalColor);
      && cf.r == (c0.r + (c1.r + c2.r) / 2) / 2
      && cf.g == (c0.g + (c1.g + c2.g) / 2) / 2
      && cf.b == (c0.b + (c1.b + c2.b) / 2) / 2
  {
    var inner := MixColors(alice, bob);
    assert FinalMix(base, alice, bob).value.finalColor == MixColors(base, inner);
  }

  /** Both parties reach the same final colour: swapping the two secrets
      changes the listed components but not the final colour. */
  lemma FinalMixSymmetric(base: string, alice: string, bob: string)
    requires ValidateHex(base) && ValidateHex(alice) && ValidateHex(bob)
    ensures FinalMix(base, alice, bob).value.finalColor == FinalMix(base, bob, alice).value.finalColor
  {
    MixCommutative(alice, bob);
  }

  /** The nested mix is not the three-way average floor((a + b + c) / 3):
      black, black and white give #3f3f3f, whose channels (63) differ from the
      average of the three colours' channels (85). */
  lemma FinalMixIsNotThreeWayAverage()
    ensures FinalMix("#000000", "#000000", "#ffffff").value.finalColor == "#3f3f3f"
    ensures var black, white := HexToRgb("#000000"), HexToRgb("#ffffff");
      var cf := HexToRgb(FinalMix("#000000", "#000000", "#ffffff").value.finalColor);
      cf.r == 63 && cf.r != (black.r + black.r + white.r) / 3
  {
    BlackWhiteGrey();
    var inner := MixColors("#000000", "#ffffff");
    assert HexToRgb(inner) == Rgb(127, 127, 127);
    var outer := MixColors("#000000", inner);
    assert HexToRgb(outer) == Rgb(63, 63, 63);
    HexToRgbOfRgbToHex(Rgb(63, 63, 63));
    RgbToHexOfHexToRgb(outer);
    assert outer == "#3f3f3f";
  }
}
