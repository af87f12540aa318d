/** The background colour setting, a "#RRGGBB" string, read the way
    `applyBackgroundColor` reads it: every leading '#' dropped, then
    `int(hex[i:i+2], 16)` for i in 0, 2, 4, and the channels reordered to BGR. */
module Colour {
  import opened Util
  import opened Text
  import opened Raster

  function HexDigitValue(c: char): (r: Option<nat>)
    ensures r.Some? ==> r.value < 16
  {
    if '0' <= c <= '9' then Some(c as int - '0' as int)
    else if 'a' <= c <= 'f' then Some(c as int - 'a' as int + 10)
    else if 'A' <= c <= 'F' then Some(c as int - 'A' as int + 10)
    else None
  }

  predicate AllHex(s: string) {
    forall k :: 0 <= k < |s| ==> HexDigitValue(s[k]).Some?
  }

  /** `s.lstrip(c)`. */
  function TrimLeading(s: string, c: char): (t: string)
    ensures |t| <= |s| && t == s[|s| - |t|..]
    ensures |t| > 0 ==> t[0] != c
    ensures forall k :: 0 <= k < |s| - |t| ==> s[k] == c
  {
    if |s| > 0 && s[0] == c then TrimLeading(s[1..], c) else s
  }

  /** `s[i:j]` for 0 <= i <= j: both bounds clamped to the length. */
  function Slice(s: string, i: nat, j: nat): (t: string)
    requires i <= j
    ensures |t| <= j - i
  {
    s[SliceIndex(|s|, i)..SliceIndex(|s|, j)]
  }

  /** `int(piece, 16)` on a piece of at most two characters, kept when it is
      a channel value: surrounding whitespace, an optional '+' and one or
      two hexadecimal digits. One or two plain hexadecimal digits read as
      their value, and a blank piece raises. */
  function HexByte(piece: string): (r: Option<Byte>)
    ensures |piece| == 1 && AllHex(piece) ==> r == Some(HexDigitValue(piece[0]).value)
    ensures |piece| == 2 && AllHex(piece) ==> r == Some(PairValue(piece))
    ensures Strip(piece) == "" ==> r == None
  {
    if 1 <= |piece| && AllHex(piece) then
      HexCharShape(piece[0]);
      HexCharShape(piece[|piece| - 1]);
      StripUnpadded(piece);
      SignedHex(Strip(piece))
    else
      SignedHex(Strip(piece))
  }

  /** `int(t, 16)` on an already stripped piece of at most two characters. */
  function SignedHex(t: string): Option<Byte> {
    var digits := if |t| > 0 && t[0] == '+' then t[1..] else t;
    if 1 <= |digits| <= 2 && AllHex(digits) then
      Some(if |digits| == 1 then HexDigitValue(digits[0]).value
           else 16 * HexDigitValue(digits[0]).value + HexDigitValue(digits[1]).value)
    else None
  }

  /** The background colour as a BGR pixel, or None where `int` raises.
      Fewer than five characters after the '#'s leave the blue piece empty,
      and `int("", 16)` raises. */
  function ParseColour(s: string): (r: Option<Pixel>)
    ensures |TrimLeading(s, '#')| <= 4 ==> r == None
  {
    var hex := TrimLeading(s, '#');
    var red, green, blue := HexByte(Slice(hex, 0, 2)), HexByte(Slice(hex, 2, 4)), HexByte(Slice(hex, 4, 6));
    if red.Some? && green.Some? && blue.Some? then Some(Pixel(blue.value, green.value, red.value)) else None
  }

  // ---------------------------------------------------------------------
  // Writing a colour, the partner of reading one

  const HEX_DIGITS: string := "0123456789ABCDEF"

  function HexPair(v: Byte): (s: string)
    ensures |s| == 2
  {
    [HEX_DIGITS[v / 16], HEX_DIGITS[v % 16]]
  }

  /** "#RRGGBB" in upper case. */
  function ToHex(p: Pixel): (s: string)
    ensures |s| == 7 && s[0] == '#'
  {
    "#" + HexPair(p.r) + HexPair(p.g) + HexPair(p.b)
  }

  lemma HexDigitRoundTrip(d: nat)
    requires d < 16
    ensures HexDigitValue(HEX_DIGITS[d]) == Some(d)
    ensures !IsSpace(HEX_DIGITS[d]) && HEX_DIGITS[d] != '+' && HEX_DIGITS[d] != '#'
  {
  }

  lemma HexPairRoundTrip(v: Byte)
    ensures HexByte(HexPair(v)) == Some(v)
    ensures HexPair(v)[0] != '#'
  {
    var s := HexPair(v);
    HexDigitRoundTrip(v / 16);
    HexDigitRoundTrip(v % 16);
    StripUnpadded(s);
  }

  lemma ColourFromPieces(s: string, hex: string, red: Byte, green: Byte, blue: Byte)
    requires TrimLeading(s, '#') == hex
    requires HexByte(Slice(hex, 0, 2)) == Some(red)
    requires HexByte(Slice(hex, 2, 4)) == Some(green)
    requires HexByte(Slice(hex, 4, 6)) == Some(blue)
    ensures ParseColour(s) == Some(Pixel(blue, green, red))
  {
  }

  lemma TrimOneLead(s: string)
    requires |s| > 0 && s[0] != '#'
    ensures TrimLeading("#" + s, '#') == s
  {
    assert ("#" + s)[1..] == s;
  }

  lemma SlicesOfSix(a: string, b: string, c: string)
    requires |a| == 2 && |b| == 2 && |c| == 2
    ensures Slice(a + b + c, 0, 2) == a
    ensures Slice(a + b + c, 2, 4) == b
    ensures Slice(a + b + c, 4, 6) == c
  {
    var six := a + b + c;
    assert six[0..2] == a && six[2..4] == b && six[4..6] == c;
  }

  /** Reading back a written colour gives the colour again. */
  lemma ColourRoundTrip(p: Pixel)
    ensures ParseColour(ToHex(p)) == Some(p)
  {
    var a, b, c := HexPair(p.r), HexPair(p.g), HexPair(p.b);
    var six := a + b + c;
    assert ToHex(p) == "#" + six;
    TrimOneLead(six);
    SlicesOfSix(a, b, c);
    HexPairRoundTrip(p.r);
    HexPairRoundTrip(p.g);
    HexPairRoundTrip(p.b);
    ColourFromPieces(ToHex(p), six, p.r, p.g, p.b);
  }

  /** The value of two hexadecimal digits. */
  function PairValue(pair: string): Byte
    requires |pair| == 2 && AllHex(pair)
  {
    16 * HexDigitValue(pair[0]).value + HexDigitValue(pair[1]).value
  }

  lemma HexCharShape(c: char)
    requires HexDigitValue(c).Some?
    ensures !IsSpace(c) && c != '+' && c != '#'
  {
  }

  /** "#RRGGBB" in either case is read as blue BB, green GG, red RR. */
  lemma SixDigitColour(six: string)
    requires |six| == 6 && AllHex(six)
    ensures ParseColour("#" + six)
      == Some(Pixel(PairValue(six[4..6]), PairValue(six[2..4]), PairValue(six[0..2])))
  {
    var a, b, c := six[0..2], six[2..4], six[4..6];
    assert six == a + b + c;
    assert AllHex(a) && AllHex(b) && AllHex(c) by {
      assert forall k :: 0 <= k < 2 ==> a[k] == six[k] && b[k] == six[2 + k] && c[k] == six[4 + k];
    }
    ColourOfPairs(a, b, c);
  }

  /** Three pairs of hex digits after a '#' are read as red, green, blue. */
  lemma ColourOfPairs(a: string, b: string, c: string)
    requires |a| == 2 && |b| == 2 && |c| == 2 && AllHex(a) && AllHex(b) && AllHex(c)
    ensures ParseColour("#" + (a + b + c)) == Some(Pixel(PairValue(c), PairValue(b), PairValue(a)))
  {
    var six := a + b + c;
    assert six[0] == a[0];
    HexCharShape(a[0]);
    TrimOneLead(six);
    SlicesOfSix(a, b, c);
    ColourFromPieces("#" + six, six, PairValue(a), PairValue(b), PairValue(c));
  }
}
