/** Conversion between hex colour text and red/green/blue channels
    (hexToRgb and rgbToHex in app.js). */
module ColorCodec {

  predicate IsHexDigit(c: char) {
    ('0' <= c <= '9') || ('a' <= c <= 'f') || ('A' <= c <= 'F')
  }

  predicate IsLowerHexDigit(c: char) {
    ('0' <= c <= '9') || ('a' <= c <= 'f')
  }

  predicate AllHexDigits(s: string) {
    forall i :: 0 <= i < |s| ==> IsHexDigit(s[i])
  }

  function HexDigitValue(c: char): (v: nat)
    requires IsHexDigit(c)
    ensures v < 16
  {
    if '0' <= c <= '9' then c as int - '0' as int
    else if 'a' <= c <= 'f' then c as int - 'a' as int + 10
    else c as int - 'A' as int + 10
  }

  /** The digit Number.prototype.toString(16) writes for a value below 16. */
  function LowerHexDigit(v: nat): (c: char)
    requires v < 16
    ensures IsLowerHexDigit(c) && HexDigitValue(c) == v
  {
    if v < 10 then ('0' as int + v) as char else ('a' as int + v - 10) as char
  }

  function ToLowerHex(c: char): (l: char)
    requires IsHexDigit(c)
    ensures IsLowerHexDigit(l)
  {
    if 'A' <= c <= 'F' then (c as int - 'A' as int + 'a' as int) as char else c
  }

  function LowerHex(s: string): (r: string)
    requires AllHexDigits(s)
    ensures |r| == |s| && forall i :: 0 <= i < |s| ==> r[i] == ToLowerHex(s[i])
  {
    if |s| == 0 then [] else [ToLowerHex(s[0])] + LowerHex(s[1..])
  }

  /** Writing a digit back in lower case gives the digit's lower-case spelling. */
  lemma LowerHexDigitOfValue(c: char)
    requires IsHexDigit(c)
    ensures LowerHexDigit(HexDigitValue(c)) == ToLowerHex(c)
  {
  }

  /** String.prototype.replace('#', ''): removes the first '#' only. */
  function StripHash(s: string): (r: string)
    ensures '#' !in s ==> r == s
    ensures |s| > 0 && s[0] == '#' ==> r == s[1..]
    ensures |r| == if '#' in s then |s| - 1 else |s|
  {
    if |s| == 0 then s
    else if s[0] == '#' then s[1..]
    else [s[0]] + StripHash(s[1..])
  }

  /** Index k holds the first '#' of s. */
  predicate FirstHashAt(s: string, k: nat) {
    k < |s| && s[k] == '#' && forall i :: 0 <= i < k ==> s[i] != '#'
  }

  /** replace('#', '') with a string pattern: text without '#' is kept as it
      is, otherwise exactly the first '#' is cut out. */
  lemma StripHashIsReplaceFirst(s: string)
    ensures '#' !in s ==> StripHash(s) == s
    ensures forall k: nat :: FirstHashAt(s, k) ==> StripHash(s) == s[..k] + s[k + 1..]
  {
    forall k: nat | FirstHashAt(s, k) ensures StripHash(s) == s[..k] + s[k + 1..] {
      StripHashRemovesFirst(s, k);
    }
  }

  /** Cutting out the first '#' keeps the text on both sides of it. */
  lemma {:induction false} StripHashRemovesFirst(s: string, k: nat)
    requires FirstHashAt(s, k)
    ensures StripHash(s) == s[..k] + s[k + 1..]
  {
    if k > 0 {
      var t := s[1..];
      assert FirstHashAt(t, k - 1);
      StripHashRemovesFirst(t, k - 1);
      assert s[..k] == [s[0]] + t[..k - 1] && s[k + 1..] == t[k..];
    }
  }

  /** Colour text hexToRgb is modelled on: after the first '#' is removed,
      three or six hex digits. Every colour the application stores from the
      colour pickers, the regex-gated hex fields and rgbToHex on bytes has
      this form. */
  predicate IsHexColor(hex: string) {
    var h := StripHash(hex);
    (|h| == 3 || |h| == 6) && AllHexDigits(h)
  }

  /** A colour text begins with '#' or with a hex digit. */
  lemma HexColorStart(hex: string)
    requires IsHexColor(hex)
    ensures |hex| > 0 && (hex[0] == '#' || IsHexDigit(hex[0]))
  {
    if |hex| > 0 && hex[0] != '#' {
      assert StripHash(hex)[0] == hex[0];
    }
  }

  /** The three-digit short form with each digit doubled. */
  function Expand3(h: string): (r: string)
    requires |h| == 3
    ensures |r| == 6 && forall i :: 0 <= i < 6 ==> r[i] == h[i / 2]
  {
    [h[0], h[0], h[1], h[1], h[2], h[2]]
  }

  /** The six digits parseInt reads. */
  function SixDigits(hex: string): (h: string)
    requires IsHexColor(hex)
    ensures |h| == 6 && AllHexDigits(h)
  {
    var h := StripHash(hex);
    if |h| == 3 then Expand3(h) else h
  }

  /** parseInt(s, 16) on a string of hex digits. */
  function HexValue(s: string): nat
    requires AllHexDigits(s)
  {
    if |s| == 0 then 0 else HexValue(s[..|s| - 1]) * 16 + HexDigitValue(s[|s| - 1])
  }

  datatype Rgb = Rgb(r: int, g: int, b: int)

  predicate IsByte(v: int) { 0 <= v <= 255 }

  predicate IsByteRgb(c: Rgb) { IsByte(c.r) && IsByte(c.g) && IsByte(c.b) }

  /** The channel written by the two hex digits s[2k] and s[2k+1]. */
  function DigitPair(s: string, k: nat): (v: nat)
    requires |s| == 6 && AllHexDigits(s) && k < 3
    ensures IsByte(v)
  {
    16 * HexDigitValue(s[2 * k]) + HexDigitValue(s[2 * k + 1])
  }

  lemma SixDigitValue(s: string)
    requires |s| == 6 && AllHexDigits(s)
    ensures HexValue(s) == 65536 * DigitPair(s, 0) + 256 * DigitPair(s, 1) + DigitPair(s, 2)
  {
    var v0, v1, v2 := HexDigitValue(s[0]), HexDigitValue(s[1]), HexDigitValue(s[2]);
    var v3, v4, v5 := HexDigitValue(s[3]), HexDigitValue(s[4]), HexDigitValue(s[5]);
    assert HexValue(s[..0]) == 0;
    assert s[..1][..0] == s[..0];
    assert HexValue(s[..1]) == v0;
    assert s[..2][..1] == s[..1];
    assert HexValue(s[..2]) == 16 * v0 + v1;
    assert s[..3][..2] == s[..2];
    assert HexValue(s[..3]) == 256 * v0 + 16 * v1 + v2;
    assert s[..4][..3] == s[..3];
    assert HexValue(s[..4]) == 4096 * v0 + 256 * v1 + 16 * v2 + v3;
    assert s[..5][..4] == s[..4];
    assert HexValue(s[..5]) == 65536 * v0 + 4096 * v1 + 256 * v2 + 16 * v3 + v4;
    assert s[..6][..5] == s[..5];
    assert s[..6] == s;
  }

  /** Shifting and masking a 24-bit value made of three bytes gives the bytes back. */
  lemma SplitBytes(a: int, b: int, c: int)
    requires IsByte(a) && IsByte(b) && IsByte(c)
    ensures var n := 65536 * a + 256 * b + c;
      n / 65536 % 256 == a && n / 256 % 256 == b && n % 256 == c
  {
    var n := 65536 * a + 256 * b + c;
    assert n / 65536 == a;
    assert n / 256 == 256 * a + b;
    assert (256 * a + b) % 256 == b;
  }

  /** hexToRgb: bits 16..23, 8..15 and 0..7 of the parsed 24-bit value. */
  function HexToRgb(hex: string): (c: Rgb)
    requires IsHexColor(hex)
    ensures IsByteRgb(c)
    ensures var h := SixDigits(hex);
      c == Rgb(DigitPair(h, 0), DigitPair(h, 1), DigitPair(h, 2))
  {
    var h := SixDigits(hex);
    var n := HexValue(h);
    SixDigitValue(h);
    SplitBytes(DigitPair(h, 0), DigitPair(h, 1), DigitPair(h, 2));
    Rgb(n / 65536 % 256, n / 256 % 256, n % 256)
  }

  /** In the three-digit form each channel is its digit doubled: 17 times its value. */
  lemma ShortFormChannels(hex: string)
    requires IsHexColor(hex) && |StripHash(hex)| == 3
    ensures var h := StripHash(hex);
      HexToRgb(hex) == Rgb(17 * HexDigitValue(h[0]), 17 * HexDigitValue(h[1]), 17 * HexDigitValue(h[2]))
  {
  }

  /** Number.prototype.toString(16) on a natural number. */
  function NatHex(n: nat): (s: string)
    ensures |s| >= 1
    decreases n
  {
    if n < 16 then [LowerHexDigit(n)] else NatHex(n / 16) + [LowerHexDigit(n % 16)]
  }

  /** Number.prototype.toString(16) on an integer: a '-' sign for negatives. */
  function JsHex(v: int): (s: string)
    ensures |s| >= 1
  {
    if v < 0 then "-" + NatHex(-v) else NatHex(v)
  }

  /** String.prototype.padStart(2, '0'). */
  function PadStart2(s: string): (r: string)
    ensures |r| == if |s| >= 2 then |s| else 2
    ensures r[|r| - |s|..] == s
    ensures forall i :: 0 <= i < |r| - |s| ==> r[i] == '0'
  {
    if |s| == 0 then "00" else if |s| == 1 then "0" + s else s
  }

  /** One channel as rgbToHex writes it. */
  function ChannelHex(v: int): (s: string)
    ensures |s| >= 2
  {
    PadStart2(JsHex(v))
  }

  /** rgbToHex: each channel in hex, padded to two digits, joined behind '#'.
      Defined for every integer, as the JavaScript is; only bytes give a colour. */
  function RgbToHex(r: int, g: int, b: int): string
  {
    "#" + (ChannelHex(r) + ChannelHex(g) + ChannelHex(b))
  }

  /** A byte is written as exactly two lower-case digits, high nibble first. */
  lemma ByteHex(v: int)
    requires IsByte(v)
    ensures ChannelHex(v) == [LowerHexDigit(v / 16), LowerHexDigit(v % 16)]
  {
    if v >= 16 {
      assert NatHex(v) == NatHex(v / 16) + [LowerHexDigit(v % 16)];
    }
  }

  /** The two-digit spelling of a byte reads back as that byte. */
  lemma ByteDigitsValue(v: int)
    requires IsByte(v)
    ensures var d := [LowerHexDigit(v / 16), LowerHexDigit(v % 16)];
      16 * HexDigitValue(d[0]) + HexDigitValue(d[1]) == v
  {
  }

  /** On bytes, rgbToHex gives '#' and six lower-case hex digits, and it is
      undone by hexToRgb. */
  lemma RgbToHexRoundTrip(r: int, g: int, b: int)
    requires IsByte(r) && IsByte(g) && IsByte(b)
    ensures var s := RgbToHex(r, g, b);
      |s| == 7 && s[0] == '#' && AllLowerHexDigits(s[1..])
      && IsHexColor(s) && |StripHash(s)| == 6 && HexToRgb(s) == Rgb(r, g, b)
  {
    var h := ChannelHex(r) + ChannelHex(g) + ChannelHex(b);
    ChannelsAreLowerHex(r, g, b);
    HashSix(h);
    ByteDigitsValue(r);
    ByteDigitsValue(g);
    ByteDigitsValue(b);
    assert DigitPair(h, 0) == r && DigitPair(h, 1) == g && DigitPair(h, 2) == b;
  }

  predicate AllLowerHexDigits(s: string) {
    forall i :: 0 <= i < |s| ==> IsLowerHexDigit(s[i])
  }

  lemma ChannelsAreLowerHex(r: int, g: int, b: int)
    requires IsByte(r) && IsByte(g) && IsByte(b)
    ensures var h := ChannelHex(r) + ChannelHex(g) + ChannelHex(b);
      |h| == 6 && AllLowerHexDigits(h)
      && h[0] == LowerHexDigit(r / 16) && h[1] == LowerHexDigit(r % 16)
      && h[2] == LowerHexDigit(g / 16) && h[3] == LowerHexDigit(g % 16)
      && h[4] == LowerHexDigit(b / 16) && h[5] == LowerHexDigit(b % 16)
  {
    ChannelIsLowerHex(r);
    ChannelIsLowerHex(g);
    ChannelIsLowerHex(b);
    var x, y, z := ChannelHex(r), ChannelHex(g), ChannelHex(b);
    LowerHexDigitsAppend(x, y);
    LowerHexDigitsAppend(x + y, z);
  }

  lemma ChannelIsLowerHex(v: int)
    requires IsByte(v)
    ensures var x := ChannelHex(v);
      |x| == 2 && AllLowerHexDigits(x) && x[0] == LowerHexDigit(v / 16) && x[1] == LowerHexDigit(v % 16)
  {
    ByteHex(v);
    var x := ChannelHex(v);
    forall i | 0 <= i < 2
      ensures IsLowerHexDigit(x[i])
    {
      if i == 0 {
        assert x[i] == LowerHexDigit(v / 16);
      } else {
        assert x[i] == LowerHexDigit(v % 16);
      }
    }
  }

  lemma LowerHexDigitsAppend(a: string, b: string)
    requires AllLowerHexDigits(a) && AllLowerHexDigits(b)
    ensures AllLowerHexDigits(a + b)
  {
  }

  /** '#' followed by six hex digits is a colour whose digits are those six. */
  lemma HashSix(h: string)
    requires |h| == 6 && AllHexDigits(h)
    ensures StripHash("#" + h) == h && IsHexColor("#" + h) && SixDigits("#" + h) == h
  {
    assert ("#" + h)[1..] == h;
  }

  /** hexToRgb followed by rgbToHex gives the six digits back, lower-cased,
      with a '#' in front (a three-digit colour comes back in its long form). */
  lemma HexToRgbRoundTrip(hex: string)
    requires IsHexColor(hex)
    ensures var c := HexToRgb(hex);
      RgbToHex(c.r, c.g, c.b) == "#" + LowerHex(SixDigits(hex))
  {
    DigitsRoundTrip(SixDigits(hex));
  }

  lemma DigitsRoundTrip(h: string)
    requires |h| == 6 && AllHexDigits(h)
    ensures RgbToHex(DigitPair(h, 0), DigitPair(h, 1), DigitPair(h, 2)) == "#" + LowerHex(h)
  {
    ThirdsHex(h);
    PairsHex(h);
    LowerHexThirds(h);
  }

  /** Each two-digit third of six hex digits is hex digits. */
  lemma ThirdsHex(h: string)
    requires |h| == 6 && AllHexDigits(h)
    ensures AllHexDigits(h[0..2]) && AllHexDigits(h[2..4]) && AllHexDigits(h[4..6])
  {
  }

  lemma PairsHex(h: string)
    requires |h| == 6 && AllHexDigits(h)
    requires AllHexDigits(h[0..2]) && AllHexDigits(h[2..4]) && AllHexDigits(h[4..6])
    ensures ChannelHex(DigitPair(h, 0)) == LowerHex(h[0..2])
    ensures ChannelHex(DigitPair(h, 1)) == LowerHex(h[2..4])
    ensures ChannelHex(DigitPair(h, 2)) == LowerHex(h[4..6])
  {
    PairHex(h, 0);
    PairHex(h, 1);
    PairHex(h, 2);
  }

  lemma LowerHexThirds(h: string)
    requires |h| == 6 && AllHexDigits(h)
    ensures LowerHex(h[0..2]) + LowerHex(h[2..4]) + LowerHex(h[4..6]) == LowerHex(h)
  {
    var a, b, c := h[0..2], h[2..4], h[4..6];
    LowerHexAppend(a, b);
    LowerHexAppend(a + b, c);
    SplitSix(h);
  }

  lemma SplitSix(h: string)
    requires |h| == 6
    ensures h[0..2] + h[2..4] + h[4..6] == h
  {
  }

  lemma {:induction false} LowerHexAppend(a: string, b: string)
    requires AllHexDigits(a) && AllHexDigits(b)
    ensures LowerHex(a + b) == LowerHex(a) + LowerHex(b)
  {
    if |a| > 0 {
      assert (a + b)[1..] == a[1..] + b;
      LowerHexAppend(a[1..], b);
    } else {
      assert a + b == b;
    }
  }

  lemma DivModSixteen(hi: nat, lo: nat)
    requires hi < 16 && lo < 16
    ensures (16 * hi + lo) / 16 == hi && (16 * hi + lo) % 16 == lo
  {
  }

  /** The byte spelled by two hex digits is written back as those digits, lower-cased. */
  lemma DigitsChannelHex(c: char, d: char)
    requires IsHexDigit(c) && IsHexDigit(d)
    ensures ChannelHex(16 * HexDigitValue(c) + HexDigitValue(d)) == [ToLowerHex(c), ToLowerHex(d)]
  {
    DivModSixteen(HexDigitValue(c), HexDigitValue(d));
    ByteHex(16 * HexDigitValue(c) + HexDigitValue(d));
    LowerHexDigitOfValue(c);
    LowerHexDigitOfValue(d);
  }

  /** The channel read from two digits is written back as those digits, lower-cased. */
  lemma PairHex(h: string, k: nat)
    requires |h| == 6 && AllHexDigits(h) && k < 3
    ensures ChannelHex(DigitPair(h, k)) == LowerHex(h[2 * k..2 * k + 2])
  {
    DigitsChannelHex(h[2 * k], h[2 * k + 1]);
    assert LowerHex(h[2 * k..2 * k + 2]) == [ToLowerHex(h[2 * k]), ToLowerHex(h[2 * k + 1])];
  }

  // Channels outside 0..255 do not give a colour.

  lemma NatHexLong(n: nat)
    requires n >= 256
    ensures |NatHex(n)| >= 3
  {
    assert NatHex(n) == NatHex(n / 16) + [LowerHexDigit(n % 16)];
    assert NatHex(n / 16) == NatHex(n / 256) + [LowerHexDigit(n / 16 % 16)];
  }

  /** Only a byte is written as two hex digits. */
  lemma ChannelHexOfNonByte(v: int)
    requires !IsByte(v)
    ensures |ChannelHex(v)| > 2 || !IsHexDigit(ChannelHex(v)[0])
  {
    if v < 0 {
      assert ChannelHex(v) == "-" + NatHex(-v);
    } else {
      NatHexLong(v);
    }
  }

  lemma ThreeChunks(x: string, y: string, z: string)
    requires |x| >= 2 && |y| >= 2 && |z| >= 2
    requires |x + y + z| <= 6 && AllHexDigits(x + y + z)
    ensures |x| == 2 && |y| == 2 && |z| == 2
    ensures IsHexDigit(x[0]) && IsHexDigit(y[0]) && IsHexDigit(z[0])
  {
    var h := x + y + z;
    assert h[0] == x[0] && h[2] == y[0] && h[4] == z[0];
  }

  /** rgbToHex gives a hex colour only when every channel is a byte. */
  lemma RgbToHexOnlyBytes(r: int, g: int, b: int)
    requires IsHexColor(RgbToHex(r, g, b))
    ensures IsByte(r) && IsByte(g) && IsByte(b)
  {
    var h := ChannelHex(r) + ChannelHex(g) + ChannelHex(b);
    assert StripHash("#" + h) == h;
    ThreeChunks(ChannelHex(r), ChannelHex(g), ChannelHex(b));
    if !IsByte(r) { ChannelHexOfNonByte(r); }
    if !IsByte(g) { ChannelHexOfNonByte(g); }
    if !IsByte(b) { ChannelHexOfNonByte(b); }
  }
}
