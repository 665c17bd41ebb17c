/** Colour darkening, as the petal gradients use it: read a `#rrggbb` colour,
    subtract an amount from each 8-bit channel, clamp each channel to [0,255]
    and print the result back as `#` followed by six lower-case hex digits.

    The parse follows `parseInt(color.replace("#", ""), 16)` and the bit
    operations follow JavaScript's 32-bit signed semantics, so the model is
    total: any string has a darkened colour, well formed or not. */
module Color {

  datatype Option<T> = None | Some(value: T)

  /** The three channels of a colour. */
  datatype Rgb = Rgb(r: int, g: int, b: int)

  predicate IsHexDigit(c: char) {
    '0' <= c <= '9' || 'a' <= c <= 'f' || 'A' <= c <= 'F'
  }

  predicate IsLowerHexDigit(c: char) {
    '0' <= c <= '9' || 'a' <= c <= 'f'
  }

  predicate AllHex(s: string) {
    forall i :: 0 <= i < |s| ==> IsHexDigit(s[i])
  }

  predicate AllLowerHex(s: string) {
    forall i :: 0 <= i < |s| ==> IsLowerHexDigit(s[i])
  }

  function DigitValue(c: char): (v: nat)
    requires IsHexDigit(c)
    ensures v < 16
  {
    if '0' <= c <= '9' then c as int - '0' as int
    else if 'a' <= c <= 'f' then c as int - 'a' as int + 10
    else c as int - 'A' as int + 10
  }

  /** The digit `toString(16)` prints for a value below 16 (lower case). */
  function Digit(v: nat): (c: char)
    requires v < 16
    ensures IsLowerHexDigit(c) && DigitValue(c) == v
  {
    if v < 10 then ('0' as int + v) as char else ('a' as int + v - 10) as char
  }

  function LowerDigit(c: char): char {
    if 'A' <= c <= 'F' then (c as int - 'A' as int + 'a' as int) as char else c
  }

  function Lower(s: string): (r: string)
    ensures |r| == |s|
  {
    seq(|s|, i requires 0 <= i < |s| => LowerDigit(s[i]))
  }

  /** The number a string of hex digits denotes, most significant digit first. */
  function HexValue(s: string): nat
    requires AllHex(s)
  {
    if s == [] then 0 else HexValue(s[..|s| - 1]) * 16 + DigitValue(s[|s| - 1])
  }

  function Pow16(k: nat): (p: nat)
    ensures p > 0
  {
    if k == 0 then 1 else 16 * Pow16(k - 1)
  }

  lemma Pow16Values()
    ensures Pow16(2) == 0x100 && Pow16(6) == 0x1000000
  {
  }

  /** Length of the longest prefix of `s` made of hex digits. */
  function HexRun(s: string): (k: nat)
    ensures k <= |s| && AllHex(s[..k])
    ensures k < |s| ==> !IsHexDigit(s[k])
  {
    if s == [] || !IsHexDigit(s[0]) then 0 else 1 + HexRun(s[1..])
  }

  /** The index of the first `#` in `s`. */
  function FirstHash(s: string): (i: nat)
    requires '#' in s
    ensures i < |s| && s[i] == '#' && '#' !in s[..i]
  {
    if s[0] == '#' then 0
    else
      var j := FirstHash(s[1..]);
      assert s[..j + 1] == [s[0]] + s[1..][..j];
      j + 1
  }

  /** `s.replace("#", "")`: only the first `#` is removed. */
  function RemoveFirstHash(s: string): (r: string)
    ensures '#' in s ==> |r| == |s| - 1
    ensures '#' !in s ==> r == s
  {
    if s == [] then []
    else if s[0] == '#' then s[1..]
    else [s[0]] + RemoveFirstHash(s[1..])
  }

  /** The result is `s` with its first `#` cut out, and nothing else changed. */
  lemma RemovesFirstHash(s: string)
    requires '#' in s
    ensures RemoveFirstHash(s) == s[..FirstHash(s)] + s[FirstHash(s) + 1..]
    ensures exists i :: 0 <= i < |s| && s[i] == '#' && '#' !in s[..i] && RemoveFirstHash(s) == s[..i] + s[i + 1..]
  {
    CutsFirstHash(s);
    FirstHashWitness(s, RemoveFirstHash(s));
  }

  lemma FirstHashWitness(s: string, r: string)
    requires '#' in s && r == s[..FirstHash(s)] + s[FirstHash(s) + 1..]
    ensures exists i :: 0 <= i < |s| && s[i] == '#' && '#' !in s[..i] && r == s[..i] + s[i + 1..]
  {
    var i := FirstHash(s);
    assert 0 <= i < |s| && s[i] == '#' && '#' !in s[..i] && r == s[..i] + s[i + 1..];
  }

  lemma {:induction false} CutsFirstHash(s: string)
    requires '#' in s
    ensures RemoveFirstHash(s) == s[..FirstHash(s)] + s[FirstHash(s) + 1..]
  {
    if s[0] != '#' {
      var t := s[1..];
      var j := FirstHash(t);
      CutsFirstHash(t);
      assert RemoveFirstHash(s) == [s[0]] + (t[..j] + t[j + 1..]);
      assert s[..j + 1] == [s[0]] + t[..j];
      assert s[j + 2..] == t[j + 1..];
    }
  }

  /** What `parseInt` reads after an optional leading `-` or `+`. */
  function Unsigned(s: string): (t: string)
    ensures |t| <= |s|
  {
    if |s| > 0 && (s[0] == '-' || s[0] == '+') then s[1..] else s
  }

  /** What radix-16 `parseInt` reads after an optional `0x` or `0X`. */
  function Unprefixed(t: string): (u: string)
    ensures |u| <= |t|
  {
    if |t| >= 2 && t[0] == '0' && (t[1] == 'x' || t[1] == 'X') then t[2..] else t
  }

  /** `parseInt(s, 16)`: an optional sign, an optional `0x`/`0X` prefix, then
      the longest run of hex digits; `None` stands for NaN (no digit at all). */
  function ParseInt16(s: string): (r: Option<int>)
    ensures r.None? <==> HexRun(Unprefixed(Unsigned(s))) == 0
    ensures r.Some? && |s| > 0 && s[0] == '-' ==> r.value <= 0
    ensures r.Some? && !(|s| > 0 && s[0] == '-') ==> r.value >= 0
  {
    var negative := |s| > 0 && s[0] == '-';
    var u := Unprefixed(Unsigned(s));
    var k := HexRun(u);
    var magnitude: int := HexValue(u[..k]);
    if k == 0 then None
    else if negative then Some(-magnitude)
    else Some(magnitude)
  }

  /** A run of hex digits followed by something that is not one parses to
      the run's value: `parseInt` stops at the first non-digit. */
  lemma ParseDigits(a: string, b: string)
    requires a != [] && AllHex(a)
    requires b == [] || !IsHexDigit(b[0])
    requires !(a == "0" && |b| > 0 && (b[0] == 'x' || b[0] == 'X'))
    ensures ParseInt16(a + b) == Some(HexValue(a))
  {
    var s := a + b;
    assert s[0] == a[0] && IsHexDigit(a[0]);
    if |s| >= 2 {
      assert s[1] == (if |a| >= 2 then a[1] else b[0]);
    }
    assert Unprefixed(Unsigned(s)) == s;
    HexRunOf(a, b);
    assert s[..|a|] == a;
  }

  /** The hex run of `a + b` is `a` when `b` does not start with a digit. */
  lemma {:induction false} HexRunOf(a: string, b: string)
    requires AllHex(a)
    requires b == [] || !IsHexDigit(b[0])
    ensures HexRun(a + b) == |a|
  {
    if a != [] {
      assert (a + b)[1..] == a[1..] + b;
      HexRunOf(a[1..], b);
    } else {
      assert a + b == b;
    }
  }

  /** A leading `-` negates what the rest parses to; a leading `+` changes
      nothing. */
  lemma ParseSigned(s: string)
    requires s == [] || (s[0] != '-' && s[0] != '+')
    ensures ParseInt16("-" + s) == match ParseInt16(s) { case None => None case Some(n) => Some(-n) }
    ensures ParseInt16("+" + s) == ParseInt16(s)
  {
    assert ("-" + s)[1..] == s && ("+" + s)[1..] == s;
  }

  /** After `0x` or `0X`, a string of hex digits parses to its value, and an
      empty one is NaN. */
  lemma ParsePrefixed(s: string)
    requires AllHex(s)
    ensures ParseInt16("0x" + s) == ParseInt16("0X" + s)
    ensures ParseInt16("0x" + s) == if s == [] then None else Some(HexValue(s))
  {
    assert ("0x" + s)[2..] == s && ("0X" + s)[2..] == s;
    HexRunOf(s, []);
    assert s + [] == s && s[..|s|] == s;
  }

  /** A string whose first character is neither a sign nor a hex digit is NaN. */
  lemma ParseNaN(s: string)
    requires s == [] || (s[0] != '-' && s[0] != '+' && !IsHexDigit(s[0]))
    ensures ParseInt16(s) == None
  {
  }

  const TwoTo32: int := 0x1_0000_0000

  /** ECMAScript ToInt32: the 32-bit signed integer congruent to n modulo 2^32. */
  function ToInt32(n: int): (r: int)
    ensures -0x8000_0000 <= r < 0x8000_0000
    ensures (n - r) % TwoTo32 == 0
  {
    var m := n % TwoTo32;
    if m >= 0x8000_0000 then m - TwoTo32 else m
  }

  /** The 32-bit word the bit operations see: NaN converts to 0. */
  function Word(color: string): (w: int)
    ensures -0x8000_0000 <= w < 0x8000_0000
    ensures ParseInt16(RemoveFirstHash(color)).None? ==> w == 0
    ensures ParseInt16(RemoveFirstHash(color)).Some? ==> (ParseInt16(RemoveFirstHash(color)).value - w) % TwoTo32 == 0
  {
    match ParseInt16(RemoveFirstHash(color))
    case None => 0
    case Some(n) => ToInt32(n)
  }

  /** `w >> 16` (an arithmetic shift is a floor division). */
  function RedOf(w: int): int { w / 0x10000 }

  /** `w >> 8 & 0x00FF` */
  function GreenOf(w: int): int { (w / 0x100) % 0x100 }

  /** `w & 0x0000FF` */
  function BlueOf(w: int): int { w % 0x100 }

  /** `c < 255 ? c < 1 ? 0 : c : 255` */
  function Clamp(c: int): (r: int)
    ensures 0 <= r <= 255
    ensures 0 <= c <= 255 ==> r == c
    ensures c < 0 ==> r == 0
    ensures c > 255 ==> r == 255
  {
    if c < 255 then (if c < 1 then 0 else c) else 255
  }

  /** The three channels the shifts and masks read out of a word. */
  function Fields(w: int): Rgb {
    Rgb(RedOf(w), GreenOf(w), BlueOf(w))
  }

  /** Each channel less `amt`, clamped to [0,255]: the arithmetic of `darkenColor`. */
  function Dim(c: Rgb, amt: int): Rgb {
    Rgb(Clamp(c.r - amt), Clamp(c.g - amt), Clamp(c.b - amt))
  }

  /** `n.toString(16)` for a non-negative integer. */
  function ToHex(n: nat): (s: string)
    ensures |s| > 0 && AllLowerHex(s)
  {
    if n < 16 then [Digit(n)] else ToHex(n / 16) + [Digit(n % 16)]
  }

  /** `darkenColor(color, percent)` with `amt` standing for `Math.round(2.55 * percent)`.
      Whatever the input, the result is `#` and six lower-case hex digits. */
  function Darken(color: string, amt: int): (r: string)
    ensures WellFormed(r) && AllLowerHex(r[1..])
  {
    DarkenWord(Word(color), amt)
  }

  /** The arithmetic and printing half of `darkenColor`, once the word is known. */
  function DarkenWord(w: int, amt: int): (r: string)
    ensures WellFormed(r) && AllLowerHex(r[1..])
  {
    var d := Dim(Fields(w), amt);
    var v := Pack(d.r, d.g, d.b);
    PrintedPacked(v);
    "#" + ToHex(0x1000000 + v)[1..]
  }

  /** The 24-bit value whose bytes are three channels in [0,255]. */
  function Pack(r: int, g: int, b: int): (v: nat)
    requires 0 <= r <= 255 && 0 <= g <= 255 && 0 <= b <= 255
    ensures v < 0x1000000
  {
    r * 0x10000 + g * 0x100 + b
  }

  /** The digits after the leading `1` are v padded to six digits. */
  lemma PrintedPacked(v: nat)
    requires v < 0x1000000
    ensures ToHex(0x1000000 + v)[1..] == FixedHex(v, 6)
    ensures AllLowerHex(FixedHex(v, 6))
  {
    Pow16Values();
    ToHexPadded(v, 6);
    FixedHexValue(v, 6);
  }

  // ---------------------------------------------------------------------
  // Reference definitions: a well-formed colour and its channels

  predicate WellFormed(color: string) {
    |color| == 7 && color[0] == '#' && AllHex(color[1..])
  }

  function Channels(color: string): Rgb
    requires WellFormed(color)
  {
    Rgb(HexValue(color[1..3]), HexValue(color[3..5]), HexValue(color[5..7]))
  }

  /** Exactly `width` hex digits of v modulo 16^width, most significant first. */
  function FixedHex(v: nat, width: nat): (s: string)
    ensures |s| == width
  {
    if width == 0 then [] else FixedHex(v / 16, width - 1) + [Digit(v % 16)]
  }

  // ---------------------------------------------------------------------
  // Printing and parsing hex are inverse

  /** Printing `16^width + v` gives a leading `1` followed by v padded to
      `width` digits: the `0x1000000 + …` then `slice(1)` trick. */
  lemma {:induction false} ToHexPadded(v: nat, width: nat)
    requires v < Pow16(width)
    ensures ToHex(Pow16(width) + v) == ['1'] + FixedHex(v, width)
  {
    if width > 0 {
      var p := Pow16(width - 1);
      assert (16 * p + v) / 16 == p + v / 16;
      assert (16 * p + v) % 16 == v % 16;
      ToHexPadded(v / 16, width - 1);
    }
  }

  /** Reading back printed digits gives the value. */
  lemma {:induction false} FixedHexValue(v: nat, width: nat)
    requires v < Pow16(width)
    ensures AllLowerHex(FixedHex(v, width))
    ensures HexValue(FixedHex(v, width)) == v
  {
    if width > 0 {
      var s := FixedHex(v, width);
      FixedHexValue(v / 16, width - 1);
      assert s[..|s| - 1] == FixedHex(v / 16, width - 1);
    }
  }

  /** Printing the value of hex digits gives them back, in lower case. */
  lemma {:induction false} FixedHexOfValue(s: string)
    requires AllHex(s)
    ensures FixedHex(HexValue(s), |s|) == Lower(s)
  {
    if s != [] {
      var init := s[..|s| - 1];
      var c := s[|s| - 1];
      assert AllHex(init);
      FixedHexOfValue(init);
      assert HexValue(s) / 16 == HexValue(init);
      assert HexValue(s) % 16 == DigitValue(c);
      assert Digit(DigitValue(c)) == LowerDigit(c);
      assert Lower(s) == Lower(init) + [LowerDigit(c)];
    }
  }

  lemma {:induction false} HexValueBound(s: string)
    requires AllHex(s)
    ensures HexValue(s) < Pow16(|s|)
  {
    if s != [] {
      HexValueBound(s[..|s| - 1]);
    }
  }

  lemma ShiftDigit(x: int, p: int, y: int, d: int)
    ensures (x * p + y) * 16 + d == x * (16 * p) + (y * 16 + d)
  {
  }

  /** Digits are positional: the value of `a + b` shifts `a` by `|b|` digits. */
  lemma {:induction false} HexValueAppend(a: string, b: string)
    requires AllHex(a) && AllHex(b)
    ensures AllHex(a + b)
    ensures HexValue(a + b) == HexValue(a) * Pow16(|b|) + HexValue(b)
  {
    if b != [] {
      var b' := b[..|b| - 1];
      var c := b[|b| - 1];
      assert (a + b)[..|a + b| - 1] == a + b';
      HexValueAppend(a, b');
      var x, p := HexValue(a), Pow16(|b'|);
      assert Pow16(|b|) == 16 * p;
      assert HexValue(b) == HexValue(b') * 16 + DigitValue(c) by {
        assert b[..|b| - 1] == b';
      }
      assert HexValue(a + b) == HexValue(a + b') * 16 + DigitValue(c);
      ShiftDigit(x, p, HexValue(b'), DigitValue(c));
    } else {
      assert a + b == a;
    }
  }

  /** The last two printed digits are those of the low byte. */
  lemma SplitLowByte(v: nat, width: nat)
    ensures FixedHex(v, width + 2) == FixedHex(v / 0x100, width) + FixedHex(v % 0x100, 2)
  {
    assert FixedHex(v, width + 2) == FixedHex(v / 16 / 16, width) + [Digit(v / 16 % 16)] + [Digit(v % 16)];
    assert v / 16 / 16 == v / 0x100;
    assert (v % 0x100) / 16 % 16 == v / 16 % 16 && (v % 0x100) % 16 == v % 16;
    assert FixedHex(v % 0x100, 2) == [Digit(v / 16 % 16)] + [Digit(v % 16)];
  }

  /** Six printed digits split into three two-digit channels. */
  lemma SixDigits(v: nat)
    ensures FixedHex(v, 6)
         == FixedHex(v / 0x10000, 2) + FixedHex((v / 0x100) % 0x100, 2) + FixedHex(v % 0x100, 2)
  {
    SplitLowByte(v, 4);
    SplitLowByte(v / 0x100, 2);
    assert v / 0x100 / 0x100 == v / 0x10000;
  }

  /** Shifting and masking a packed value gives back its three bytes. */
  lemma Unpack(r: int, g: int, b: int)
    requires 0 <= r <= 255 && 0 <= g <= 255 && 0 <= b <= 255
    ensures var v := Pack(r, g, b);
      v / 0x10000 == r && (v / 0x100) % 0x100 == g && v % 0x100 == b
  {
    var v := Pack(r, g, b);
    assert v == r * 0x10000 + (g * 0x100 + b);
    assert v / 0x100 == r * 0x100 + g;
  }

  /** The six printed digits of a packed value are its three bytes' pairs. */
  lemma PackedDigits(r: int, g: int, b: int)
    requires 0 <= r <= 255 && 0 <= g <= 255 && 0 <= b <= 255
    ensures FixedHex(Pack(r, g, b), 6) == FixedHex(r, 2) + FixedHex(g, 2) + FixedHex(b, 2)
  {
    SixDigits(Pack(r, g, b));
    Unpack(r, g, b);
  }

  /** Cutting three two-character strings back out of their concatenation. */
  lemma ThreePairs(x: string, y: string, z: string)
    requires |x| == 2 && |y| == 2 && |z| == 2
    ensures (x + y + z)[0..2] == x && (x + y + z)[2..4] == y && (x + y + z)[4..6] == z
  {
  }

  /** Reading the three channels back out of a packed, printed value. */
  lemma PackedChannels(r: int, g: int, b: int)
    requires 0 <= r <= 255 && 0 <= g <= 255 && 0 <= b <= 255
    ensures var s := FixedHex(Pack(r, g, b), 6);
      AllHex(s) && HexValue(s[0..2]) == r && HexValue(s[2..4]) == g && HexValue(s[4..6]) == b
  {
    var x, y, z := FixedHex(r, 2), FixedHex(g, 2), FixedHex(b, 2);
    PackedDigits(r, g, b);
    ThreePairs(x, y, z);
    Pow16Values();
    FixedHexValue(r, 2);
    FixedHexValue(g, 2);
    FixedHexValue(b, 2);
    assert AllHex(x + y + z) by {
      assert forall i | 0 <= i < 6 :: (x + y + z)[i] in x || (x + y + z)[i] in y || (x + y + z)[i] in z;
    }
  }

  // ---------------------------------------------------------------------
  // Properties of Darken

  /** A packed colour printed as `#` and six digits reads back as its channels. */
  lemma PrintedChannels(c: Rgb)
    requires 0 <= c.r <= 255 && 0 <= c.g <= 255 && 0 <= c.b <= 255
    ensures var out := "#" + FixedHex(Pack(c.r, c.g, c.b), 6);
      WellFormed(out) && Channels(out) == c
  {
    var s := FixedHex(Pack(c.r, c.g, c.b), 6);
    var out := "#" + s;
    PackedChannels(c.r, c.g, c.b);
    assert out[1..] == s;
    assert out[1..3] == s[0..2] && out[3..5] == s[2..4] && out[5..7] == s[4..6];
  }

  /** The channels of the printed result are the dimmed fields of the word. */
  lemma DarkenWordChannels(w: int, amt: int)
    ensures Channels(DarkenWord(w, amt)) == Dim(Fields(w), amt)
  {
    DarkenWordPrints(w, amt);
    PrintedChannels(Dim(Fields(w), amt));
  }

  /** The printed result is `#` and the six-digit form of the packed, dimmed fields. */
  lemma DarkenWordPrints(w: int, amt: int)
    ensures var d := Dim(Fields(w), amt);
      DarkenWord(w, amt) == "#" + FixedHex(Pack(d.r, d.g, d.b), 6)
  {
    var d := Dim(Fields(w), amt);
    PrintedPacked(Pack(d.r, d.g, d.b));
  }

  /** Whatever the input, the channels of the result are the clamped
      differences of the channels of the input's 32-bit word. */
  lemma DarkenDecodes(color: string, amt: int)
    ensures Channels(Darken(color, amt)) == Dim(Fields(Word(color)), amt)
  {
    DarkenWordChannels(Word(color), amt);
  }

  /** `parseInt` reads a string made only of hex digits in full. */
  lemma ParseAllHex(s: string)
    requires AllHex(s) && s != []
    ensures ParseInt16(s) == Some(HexValue(s))
  {
    var k := HexRun(s);
    assert k == |s|;
    assert s[..k] == s;
  }

  /** A well-formed colour's word is the number its six digits spell. */
  lemma WellFormedWord(color: string)
    requires WellFormed(color)
    ensures Word(color) == HexValue(color[1..])
  {
    var s := color[1..];
    assert RemoveFirstHash(color) == s;
    ParseAllHex(s);
    HexValueBound(s);
    Pow16Values();
  }

  /** The shifts and masks pick out the three two-digit channels. */
  lemma WordChannels(color: string)
    requires WellFormed(color)
    ensures var w := HexValue(color[1..]);
      RedOf(w) == Channels(color).r && GreenOf(w) == Channels(color).g && BlueOf(w) == Channels(color).b
  {
    var hr, hg, hb := color[1..3], color[3..5], color[5..7];
    assert AllHex(hr) && AllHex(hg) && AllHex(hb);
    assert color[1..] == hr + hg + hb;
    HexValueAppend(hr, hg);
    HexValueAppend(hr + hg, hb);
    HexValueBound(hg);
    HexValueBound(hb);
    Pow16Values();
    ByteFields(HexValue(hr), HexValue(hg), HexValue(hb));
  }

  /** A word built from three bytes gives each byte back. */
  lemma ByteFields(r: nat, g: nat, b: nat)
    requires g < 0x100 && b < 0x100
    ensures var w := (r * 0x100 + g) * 0x100 + b;
      RedOf(w) == r && GreenOf(w) == g && BlueOf(w) == b
  {
    var v := r * 0x100 + g;
    var w := v * 0x100 + b;
    assert w / 0x100 == v && w % 0x100 == b;
    assert v / 0x100 == r && v % 0x100 == g;
    assert w == r * 0x10000 + (g * 0x100 + b);
  }

  /** On a well-formed colour each channel is the input channel minus `amt`,
      clamped to [0,255]. */
  lemma DarkenChannels(color: string, amt: int)
    requires WellFormed(color)
    ensures WellFormed(Darken(color, amt))
    ensures Channels(Darken(color, amt)) == Dim(Channels(color), amt)
  {
    DarkenDecodes(color, amt);
    WellFormedWord(color);
    WordChannels(color);
  }

  /** Darkening by a non-negative amount never brightens a channel. */
  lemma DarkenNeverBrightens(color: string, amt: int)
    requires WellFormed(color) && amt >= 0
    ensures var c, d := Channels(color), Channels(Darken(color, amt));
      d.r <= c.r && d.g <= c.g && d.b <= c.b
  {
    DarkenChannels(color, amt);
    var c := Channels(color);
    HexValueBound(color[1..3]);
    HexValueBound(color[3..5]);
    HexValueBound(color[5..7]);
  }

  /** Each channel of a well-formed colour is a byte. */
  lemma ChannelsAreBytes(color: string)
    requires WellFormed(color)
    ensures var c := Channels(color); 0 <= c.r <= 255 && 0 <= c.g <= 255 && 0 <= c.b <= 255
  {
    Pow16Values();
    HexValueBound(color[1..3]);
    HexValueBound(color[3..5]);
    HexValueBound(color[5..7]);
  }

  /** Dimming bytes by zero changes nothing. */
  lemma DimByZero(c: Rgb)
    requires 0 <= c.r <= 255 && 0 <= c.g <= 255 && 0 <= c.b <= 255
    ensures Dim(c, 0) == c
  {
  }

  /** Darkening by zero reproduces the colour's channels. */
  lemma DarkenByZero(color: string)
    requires WellFormed(color)
    ensures Channels(Darken(color, 0)) == Channels(color)
  {
    ChannelsAreBytes(color);
    DarkenChannels(color, 0);
    DimByZero(Channels(color));
  }

  /** Darkening by zero reprints the colour's own digits, in lower case. */
  lemma DarkenByZeroText(color: string)
    requires WellFormed(color)
    ensures Darken(color, 0) == "#" + Lower(color[1..])
  {
    var s := color[1..];
    var w := HexValue(s);
    WellFormedWord(color);
    assert w < 0x1000000 by {
      HexValueBound(s);
      Pow16Values();
    }
    DarkenWordByZero(w);
    FixedHexOfValue(s);
  }

  /** Darkening a 24-bit word by zero prints the word itself in six digits. */
  lemma DarkenWordByZero(w: int)
    requires 0 <= w < 0x1000000
    ensures DarkenWord(w, 0) == "#" + FixedHex(w, 6)
  {
    var d := Dim(Fields(w), 0);
    DarkenWordPrints(w, 0);
    Repack(w);
    DimByZero(Fields(w));
    assert Pack(d.r, d.g, d.b) == w;
  }

  /** A 24-bit value is the packing of its own three bytes. */
  lemma Repack(w: int)
    requires 0 <= w < 0x1000000
    ensures 0 <= RedOf(w) <= 255 && 0 <= GreenOf(w) <= 255 && 0 <= BlueOf(w) <= 255
    ensures Pack(RedOf(w), GreenOf(w), BlueOf(w)) == w
  {
    var hi := w / 0x100;
    assert w == hi * 0x100 + BlueOf(w);
    assert hi == RedOf(w) * 0x100 + GreenOf(w);
  }
}
