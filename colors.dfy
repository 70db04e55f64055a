/** Colors as the color picker delivers them (a Kotlin `Int`, packed ARGB),
    their rendering by Java's `Integer.toHexString`, and the text the screen
    shows for the list of picked colors. */
module Colors {
  import opened Text

  /** Kotlin's 32-bit signed `Int`. */
  newtype Int32 = x: int | -0x8000_0000 <= x < 0x8000_0000

  const TwoTo32: nat := 0x1_0000_0000

  /** The unsigned value of the 32 bits of `c`: the number in [0, 2^32) that
      is congruent to `c` modulo 2^32. */
  function Unsigned(c: Int32): (n: nat)
    ensures n < TwoTo32
    ensures (n - c as int) % TwoTo32 == 0
  {
    if c < 0 then c as int + TwoTo32 else c as int
  }

  predicate IsHexDigit(ch: char) {
    '0' <= ch <= '9' || 'a' <= ch <= 'f'
  }

  predicate AllHexDigits(s: string) {
    forall k :: 0 <= k < |s| ==> IsHexDigit(s[k])
  }

  function DigitValue(ch: char): (d: nat)
    requires IsHexDigit(ch)
    ensures d < 16
  {
    if ch <= '9' then ch as int - '0' as int else ch as int - 'a' as int + 10
  }

  /** The lower-case hexadecimal digit for `d`; `DigitValue` undoes it. */
  function HexDigit(d: nat): (ch: char)
    requires d < 16
    ensures IsHexDigit(ch) && DigitValue(ch) == d
  {
    if d < 10 then ('0' as int + d) as char else ('a' as int + d - 10) as char
  }

  /** The value of a string of hexadecimal digits, most significant first. */
  function FromHex(s: string): nat
    requires AllHexDigits(s)
  {
    if s == [] then 0 else FromHex(s[..|s| - 1]) * 16 + DigitValue(s[|s| - 1])
  }

  function Pow16(k: nat): (p: nat)
    ensures p >= 1
  {
    if k == 0 then 1 else 16 * Pow16(k - 1)
  }

  /** The hexadecimal digits of `n` without leading zeros ("0" for zero). */
  function HexDigits(n: nat): (s: string)
    ensures 1 <= |s| && AllHexDigits(s)
    ensures |s| == 1 || s[0] != '0'
  {
    if n < 16 then [HexDigit(n)] else HexDigits(n / 16) + [HexDigit(n % 16)]
  }

  /** Reading the digits back gives the number. */
  lemma {:induction false} HexDigitsRoundTrip(n: nat)
    ensures FromHex(HexDigits(n)) == n
  {
    var s := HexDigits(n);
    if n < 16 {
      assert s[..0] == [];
    } else {
      HexDigitsRoundTrip(n / 16);
      assert s[..|s| - 1] == HexDigits(n / 16);
    }
  }

  /** A number below 16^k needs at most k digits. */
  lemma {:induction false} HexDigitsLength(n: nat, k: nat)
    requires 1 <= k && n < Pow16(k)
    ensures |HexDigits(n)| <= k
  {
    assert Pow16(1) == 16;
    if n >= 16 {
      assert n / 16 < Pow16(k - 1);
      HexDigitsLength(n / 16, k - 1);
    }
  }

  /** Java's `Integer.toHexString`: the lower-case hexadecimal digits of the
      unsigned 32-bit value, with no leading zeros. Reading the string back
      gives that unsigned value, so negative colors (any opaque ARGB color)
      come out as eight digits. */
  function ToHexString(c: Int32): (s: string)
    ensures 1 <= |s| <= 8 && AllHexDigits(s)
    ensures |s| == 1 || s[0] != '0'
    ensures FromHex(s) == Unsigned(c)
  {
    HexDigitsRoundTrip(Unsigned(c));
    assert Pow16(8) == TwoTo32;
    HexDigitsLength(Unsigned(c), 8);
    HexDigits(Unsigned(c))
  }

  /** Different colors never render to the same text. */
  lemma ToHexStringInjective(a: Int32, b: Int32)
    requires ToHexString(a) == ToHexString(b)
    ensures a == b
  {
    assert Unsigned(a) == Unsigned(b);
    assert a < 0 <==> Unsigned(a) >= 0x8000_0000;
    assert b < 0 <==> Unsigned(b) >= 0x8000_0000;
  }

  /** The piece of the colors label for one color: a space, its hexadecimal
      text and ", ". */
  function Segment(c: Int32): (s: string)
    ensures |s| == |ToHexString(c)| + 3
    ensures Count(s, ',') == 1
  {
    var hex := ToHexString(c);
    forall k | 0 <= k < |hex| ensures hex[k] != ',' {
      assert IsHexDigit(hex[k]);
    }
    CountAbsent(hex, ',');
    CountAppend(" ", hex, ',');
    CountAppend(" " + hex, ", ", ',');
    assert Count(", ", ',') == 1;
    assert Count(" ", ',') == 0;
    " " + hex + ", "
  }

  /** A segment opens with a space, carries the color's hexadecimal text and
      closes with a comma and a space. */
  lemma SegmentLayout(c: Int32)
    ensures Segment(c)[0] == ' ' && Segment(c)[|Segment(c)| - 2..] == ", "
    ensures Segment(c)[1..|Segment(c)| - 2] == ToHexString(c)
  {
    var hex := ToHexString(c);
    assert Segment(c) == " " + hex + ", ";
  }

  /** What `updateColors` writes into the colors label: the segments of the
      colors, in order. */
  function ColorsText(colors: seq<Int32>): (text: string)
    ensures text == [] <==> colors == []
  {
    if colors == [] then []
    else ColorsText(colors[..|colors| - 1]) + Segment(colors[|colors| - 1])
  }

  /** The label of a longer list extends the label of its prefix: picking a
      color appends one segment and rewrites nothing before it. */
  lemma {:induction false} ColorsTextAppend(a: seq<Int32>, b: seq<Int32>)
    ensures ColorsText(a + b) == ColorsText(a) + ColorsText(b)
    decreases |b|
  {
    if b == [] {
      assert a + b == a;
    } else {
      var b' := b[..|b| - 1];
      var c := b[|b| - 1];
      assert (a + b)[..|a + b| - 1] == a + b';
      assert (a + b)[|a + b| - 1] == c;
      calc {
        ColorsText(a + b);
        ColorsText(a + b') + Segment(c);
        { ColorsTextAppend(a, b'); }
        (ColorsText(a) + ColorsText(b')) + Segment(c);
        ColorsText(a) + (ColorsText(b') + Segment(c));
        ColorsText(a) + ColorsText(b);
      }
    }
  }

  /** The label holds exactly one comma per picked color. */
  lemma {:induction false} ColorsTextSegments(colors: seq<Int32>)
    ensures Count(ColorsText(colors), ',') == |colors|
  {
    if colors != [] {
      var front := colors[..|colors| - 1];
      ColorsTextSegments(front);
      CountAppend(ColorsText(front), Segment(colors[|colors| - 1]), ',');
    }
  }
}
