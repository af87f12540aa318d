/** The Python string operations the size and colour parsers rely on:
    `str.split(sep)`, `str.replace(old, new)`, `str.strip()` and `float(s)`,
    each on `seq<char>`. */
module Text {
  import opened Util

  /** The characters Python's `str.strip()`, `float()` and `int()` skip as
      whitespace (`str.isspace`). */
  predicate IsSpace(c: char) {
    var n := c as int;
    n == 0x20 || 0x09 <= n <= 0x0D || 0x1C <= n <= 0x1F || n == 0x85 || n == 0xA0 || n == 0x1680
    || 0x2000 <= n <= 0x200A || n == 0x2028 || n == 0x2029 || n == 0x202F || n == 0x205F || n == 0x3000
  }

  predicate IsDigit(c: char) {
    '0' <= c <= '9'
  }

  predicate AllDigits(s: string) {
    forall i :: 0 <= i < |s| ==> IsDigit(s[i])
  }

  /** `sep` occurs in `s` starting at index `j`. */
  predicate OccursAt(s: string, sep: string, j: int) {
    0 <= j && j + |sep| <= |s| && s[j..j + |sep|] == sep
  }

  ghost predicate NoOccurrence(s: string, sep: string) {
    forall j :: !OccursAt(s, sep, j)
  }

  lemma OccursAtTail(s: string, sep: string)
    requires |s| > 0
    ensures forall j :: j >= 1 ==> (OccursAt(s, sep, j) <==> OccursAt(s[1..], sep, j - 1))
  {
    forall j | j >= 1
      ensures OccursAt(s, sep, j) <==> OccursAt(s[1..], sep, j - 1)
    {
      if j + |sep| <= |s| {
        assert s[1..][j - 1..j - 1 + |sep|] == s[j..j + |sep|];
      }
    }
  }

  /** The first index at which `sep` occurs in `s` (Python's `str.find`). */
  function IndexOf(s: string, sep: string): (r: Option<nat>)
    requires |sep| > 0
    ensures r.Some? ==> OccursAt(s, sep, r.value)
    ensures r.Some? ==> forall j :: 0 <= j < r.value ==> !OccursAt(s, sep, j)
    ensures r.None? ==> NoOccurrence(s, sep)
    decreases |s|
  {
    if |s| < |sep| then None
    else if s[..|sep|] == sep then Some(0)
    else
      assert !OccursAt(s, sep, 0) by { assert s[0..|sep|] == s[..|sep|]; }
      OccursAtTail(s, sep);
      match IndexOf(s[1..], sep)
      case None => None
      case Some(k) => Some(k + 1)
  }

  /** An occurrence with none before it is the one `IndexOf` finds. */
  lemma IndexOfFirst(s: string, sep: string, k: nat)
    requires |sep| > 0 && OccursAt(s, sep, k)
    requires forall j :: 0 <= j < k ==> !OccursAt(s, sep, j)
    ensures IndexOf(s, sep) == Some(k)
  {
  }

  /** `sep.join(parts)`. */
  function Join(parts: seq<string>, sep: string): string
  {
    if |parts| == 0 then ""
    else if |parts| == 1 then parts[0]
    else parts[0] + sep + Join(parts[1..], sep)
  }

  lemma PrefixHasNoOccurrence(s: string, sep: string, k: nat)
    requires |sep| > 0 && k <= |s|
    requires forall j :: 0 <= j < k ==> !OccursAt(s, sep, j)
    ensures NoOccurrence(s[..k], sep)
  {
    forall j
      ensures !OccursAt(s[..k], sep, j)
    {
      if 0 <= j && j + |sep| <= k {
        assert s[..k][j..j + |sep|] == s[j..j + |sep|];
        assert !OccursAt(s, sep, j);
      }
    }
  }

  /** Within `s[..|p|]`, an occurrence of `sep` is one of `p` exactly when
      it is one of `s`. */
  lemma PrefixOccurrence(s: string, p: string, sep: string, j: int)
    requires |p| <= |s| && p == s[..|p|] && 0 <= j && j + |sep| <= |p|
    ensures OccursAt(p, sep, j) <==> OccursAt(s, sep, j)
  {
    assert p[j..j + |sep|] == s[j..j + |sep|];
  }

  /** A piece followed by the separator is cut at the separator's first
      occurrence: none of them starts inside the piece. */
  predicate FirstCut(piece: string, sep: string) {
    forall j :: 0 <= j < |piece| ==> !OccursAt(piece + sep, sep, j)
  }

  /** The piece in front of the first occurrence is a first cut. */
  lemma FirstCutAtFirst(s: string, sep: string, k: nat)
    requires |sep| > 0 && OccursAt(s, sep, k)
    requires forall j :: 0 <= j < k ==> !OccursAt(s, sep, j)
    ensures FirstCut(s[..k], sep)
  {
    var p := s[..k] + sep;
    assert p == s[..k + |sep|];
    forall j | 0 <= j < k ensures !OccursAt(p, sep, j) {
      PrefixOccurrence(s, p, sep, j);
    }
  }

  /** A first cut stays one when more text follows the separator. */
  lemma FirstCutExtends(piece: string, sep: string, rest: string)
    requires FirstCut(piece, sep)
    ensures forall j :: 0 <= j < |piece| ==> !OccursAt(piece + sep + rest, sep, j)
  {
    var t := piece + sep + rest;
    assert t[..|piece + sep|] == piece + sep;
    forall j | 0 <= j < |piece| ensures !OccursAt(t, sep, j) {
      PrefixOccurrence(t, piece + sep, sep, j);
    }
  }

  /** `s.split(sep)`: cut at every leftmost non-overlapping occurrence. Joining
      the pieces back gives `s`, no piece contains the separator, and each
      cut is at the first occurrence after the previous one. */
  function Split(s: string, sep: string): (parts: seq<string>)
    requires |sep| > 0
    ensures |parts| >= 1
    ensures Join(parts, sep) == s
    ensures forall i :: 0 <= i < |parts| ==> NoOccurrence(parts[i], sep)
    ensures forall i :: 0 <= i < |parts| - 1 ==> FirstCut(parts[i], sep)
    decreases |s|
  {
    match IndexOf(s, sep)
    case None => [s]
    case Some(k) =>
      PrefixHasNoOccurrence(s, sep, k);
      FirstCutAtFirst(s, sep, k);
      var rest := Split(s[k + |sep|..], sep);
      assert s[..k] + sep + s[k + |sep|..] == s by {
        assert s[k..k + |sep|] == sep;
        assert s == s[..k] + s[k..k + |sep|] + s[k + |sep|..];
      }
      [s[..k]] + rest
  }

  /** `s.replace(old, new)`: Python replaces the same leftmost non-overlapping
      occurrences that `split` cuts at. */
  function Replace(s: string, pattern: string, replacement: string): (r: string)
    requires |pattern| > 0
    ensures NoOccurrence(s, pattern) ==> r == s
    ensures replacement == pattern ==> r == s
  {
    Join(Split(s, pattern), replacement)
  }

  /** The pieces are the only ones with the contract of `Split`: joined
      back they give `s`, none holds the separator, and every cut is at the
      first occurrence. */
  lemma {:induction false} SplitUnique(s: string, sep: string, parts: seq<string>)
    requires |sep| > 0 && |parts| >= 1 && Join(parts, sep) == s
    requires forall i :: 0 <= i < |parts| ==> NoOccurrence(parts[i], sep)
    requires forall i :: 0 <= i < |parts| - 1 ==> FirstCut(parts[i], sep)
    ensures Split(s, sep) == parts
    decreases |parts|
  {
    if |parts| == 1 {
      SplitWithout(s, sep);
    } else {
      var p, rest := parts[0], parts[1..];
      assert s == p + sep + Join(rest, sep);
      SplitFirstPiece(p, sep, Join(rest, sep));
      assert forall i :: 0 <= i < |rest| ==> rest[i] == parts[i + 1];
      SplitUnique(Join(rest, sep), sep, rest);
    }
  }

  /** After a first cut and the separator, `str.split` cuts there first. */
  lemma SplitFirstPiece(p: string, sep: string, t: string)
    requires |sep| > 0 && FirstCut(p, sep)
    ensures IndexOf(p + sep + t, sep) == Some(|p|)
    ensures (p + sep + t)[..|p|] == p && (p + sep + t)[|p| + |sep|..] == t
  {
    var s := p + sep + t;
    FirstCutExtends(p, sep, t);
    assert s[|p|..|p| + |sep|] == sep;
    IndexOfFirst(s, sep, |p|);
  }

  lemma SplitWithout(s: string, sep: string)
    requires |sep| > 0 && NoOccurrence(s, sep)
    ensures Split(s, sep) == [s]
  {
  }

  /** The pieces of a split only hold characters of the string split. */
  lemma {:induction false} SplitKeepsOut(s: string, sep: string, c: char)
    requires |sep| > 0 && c !in s
    ensures forall i :: 0 <= i < |Split(s, sep)| ==> c !in Split(s, sep)[i]
    decreases |s|
  {
    match IndexOf(s, sep)
    case None =>
    case Some(k) =>
      var tail := s[k + |sep|..];
      assert c !in tail by {
        forall i | 0 <= i < |tail| ensures tail[i] != c { assert tail[i] == s[k + |sep| + i]; }
      }
      assert c !in s[..k] by {
        forall i | 0 <= i < k ensures s[..k][i] != c { assert s[..k][i] == s[i]; }
      }
      SplitKeepsOut(tail, sep, c);
  }

  lemma {:induction false} JoinKeepsOut(parts: seq<string>, sep: string, c: char)
    requires c !in sep
    requires forall i :: 0 <= i < |parts| ==> c !in parts[i]
    ensures c !in Join(parts, sep)
    decreases |parts|
  {
    if |parts| > 1 {
      JoinKeepsOut(parts[1..], sep, c);
    }
  }

  lemma ReplaceKeepsOut(s: string, pattern: string, replacement: string, c: char)
    requires |pattern| > 0 && c !in s && c !in replacement
    ensures c !in Replace(s, pattern, replacement)
  {
    SplitKeepsOut(s, pattern, c);
    JoinKeepsOut(Split(s, pattern), replacement, c);
  }

  /** `s.lstrip()` restricted to whitespace: the longest suffix of `s` that
      does not start with whitespace. */
  function TrimStart(s: string): (r: string)
    ensures |r| <= |s| && r == s[|s| - |r|..]
    ensures |r| > 0 ==> !IsSpace(r[0])
    ensures forall i :: 0 <= i < |s| - |r| ==> IsSpace(s[i])
  {
    if |s| > 0 && IsSpace(s[0]) then TrimStart(s[1..]) else s
  }

  /** The longest prefix of `s` that does not end with whitespace. */
  function TrimEnd(s: string): (r: string)
    ensures |r| <= |s| && r == s[..|r|]
    ensures |r| > 0 ==> !IsSpace(r[|r| - 1])
    ensures forall i :: |r| <= i < |s| ==> IsSpace(s[i])
  {
    if |s| > 0 && IsSpace(s[|s| - 1]) then TrimEnd(s[..|s| - 1]) else s
  }

  /** `s.strip()`: a piece of `s` that neither starts nor ends with
      whitespace, empty exactly when `s` is all whitespace. */
  function Strip(s: string): (r: string)
    ensures |r| <= |s|
    ensures |r| > 0 ==> !IsSpace(r[0]) && !IsSpace(r[|r| - 1])
    ensures r == [] <==> forall i :: 0 <= i < |s| ==> IsSpace(s[i])
  {
    TrimEnd(TrimStart(s))
  }

  lemma StripUnpadded(s: string)
    requires |s| > 0 ==> !IsSpace(s[0]) && !IsSpace(s[|s| - 1])
    ensures Strip(s) == s
  {
  }

  lemma StripKeepsOut(s: string, c: char)
    requires c !in s
    ensures c !in Strip(s)
  {
    var t := TrimStart(s);
    assert forall i :: 0 <= i < |t| ==> t[i] == s[|s| - |t| + i];
    var u := TrimEnd(t);
    assert forall i :: 0 <= i < |u| ==> u[i] == t[i];
  }

  /** The number a string of decimal digits denotes. */
  function DigitsValue(s: string): nat
    requires AllDigits(s)
  {
    if |s| == 0 then 0 else DigitsValue(s[..|s| - 1]) * 10 + (s[|s| - 1] as int - '0' as int)
  }

  function Pow10(k: nat): (p: nat)
    ensures p >= 1
  {
    if k == 0 then 1 else 10 * Pow10(k - 1)
  }

  lemma AllDigitsConcat(a: string, b: string)
    requires AllDigits(a) && AllDigits(b)
    ensures AllDigits(a + b)
  {
    forall i | 0 <= i < |a + b| ensures IsDigit((a + b)[i]) {
      if i < |a| { assert (a + b)[i] == a[i]; } else { assert (a + b)[i] == b[i - |a|]; }
    }
  }

  lemma {:induction false} DigitsValueAppend(a: string, b: string)
    requires AllDigits(a) && AllDigits(b)
    ensures AllDigits(a + b)
    ensures DigitsValue(a + b) == DigitsValue(a) * Pow10(|b|) + DigitsValue(b)
    decreases |b|
  {
    AllDigitsConcat(a, b);
    if |b| > 0 {
      var b' := b[..|b| - 1];
      var d := b[|b| - 1] as int - '0' as int;
      assert (a + b)[..|a + b| - 1] == a + b';
      assert (a + b)[|a + b| - 1] == b[|b| - 1];
      DigitsValueAppend(a, b');
      ShiftDigit(DigitsValue(a), Pow10(|b'|), DigitsValue(b'), d);
    } else {
      assert a + b == a;
    }
  }

  /** One more digit after `x` followed by `p`-scaled `y`. */
  lemma ShiftDigit(x: int, p: int, y: int, d: int)
    ensures (x * p + y) * 10 + d == x * (p * 10) + (y * 10 + d)
  {
  }

  /** `float(s)` for the plain decimal forms Python accepts: optional
      surrounding whitespace, then digits with at most one decimal point and
      at least one digit ("3", "3.", ".5", "3.5"). */
  function ParseFloat(s: string): (r: Option<real>)
    ensures r.Some? ==> r.value >= 0.0
  {
    PiecesValue(Split(Strip(s), "."))
  }

  /** The number the pieces around the point spell: one run of digits, or
      two runs with at least one digit between them. */
  function PiecesValue(parts: seq<string>): (r: Option<real>)
    ensures r.Some? ==> r.value >= 0.0
  {
    if |parts| == 1 && |parts[0]| > 0 && AllDigits(parts[0]) then
      Some(DigitsValue(parts[0]) as real)
    else if |parts| == 2 && |parts[0]| + |parts[1]| > 0 && AllDigits(parts[0]) && AllDigits(parts[1]) then
      var whole, fraction, scale := DigitsValue(parts[0]) as real, DigitsValue(parts[1]) as real, Pow10(|parts[1]|) as real;
      assert fraction / scale >= 0.0;
      Some(whole + fraction / scale)
    else
      None
  }

  // An independent description of a decimal literal: its characters are
  // digits and at most one point, and it has at least one digit; its value
  // is the integer its digits spell, scaled down by the digits after the point.

  predicate IsDecimalLiteral(t: string) {
    (forall i :: 0 <= i < |t| ==> IsDigit(t[i]) || t[i] == '.')
    && CountDots(t) <= 1 && |DigitChars(t)| > 0
  }

  function CountDots(t: string): nat {
    if |t| == 0 then 0 else CountDots(t[..|t| - 1]) + (if t[|t| - 1] == '.' then 1 else 0)
  }

  /** `t` without its point. */
  function DigitChars(t: string): string {
    if |t| == 0 then ""
    else if t[|t| - 1] == '.' then DigitChars(t[..|t| - 1])
    else DigitChars(t[..|t| - 1]) + [t[|t| - 1]]
  }

  /** How many characters follow the point (0 when there is none). */
  function FractionLength(t: string): nat {
    if |t| == 0 || t[|t| - 1] == '.' then 0
    else if CountDots(t) == 0 then 0
    else FractionLength(t[..|t| - 1]) + 1
  }

  lemma {:induction false} DigitCharsAllDigits(t: string)
    requires forall i :: 0 <= i < |t| ==> IsDigit(t[i]) || t[i] == '.'
    ensures AllDigits(DigitChars(t))
    decreases |t|
  {
    if |t| > 0 {
      DigitCharsAllDigits(t[..|t| - 1]);
    }
  }

  function LiteralValue(t: string): real
    requires IsDecimalLiteral(t)
  {
    DigitCharsAllDigits(t);
    DigitsValue(DigitChars(t)) as real / Pow10(FractionLength(t)) as real
  }

  lemma {:induction false} DigitsOnly(a: string)
    requires AllDigits(a)
    ensures CountDots(a) == 0 && DigitChars(a) == a && FractionLength(a) == 0
    decreases |a|
  {
    if |a| > 0 {
      DigitsOnly(a[..|a| - 1]);
    }
  }

  /** A literal `a.b`: the point, the digits and the fraction length. */
  lemma {:induction false} PointedLiteral(a: string, b: string)
    requires AllDigits(a) && AllDigits(b)
    ensures CountDots(a + "." + b) == 1
    ensures DigitChars(a + "." + b) == a + b
    ensures FractionLength(a + "." + b) == |b|
    decreases |b|
  {
    if |b| == 0 {
      DigitsOnly(a);
      assert (a + "." + b)[..|a + "." + b| - 1] == a;
    } else {
      var b' := b[..|b| - 1];
      assert (a + "." + b)[..|a + "." + b| - 1] == a + "." + b';
      PointedLiteral(a, b');
    }
  }

  lemma {:induction false} AllDigitsNoPoint(a: string)
    requires AllDigits(a)
    ensures NoOccurrence(a, ".")
  {
    forall j ensures !OccursAt(a, ".", j) {
      if 0 <= j < |a| {
        assert a[j..j + 1] == [a[j]];
      }
    }
  }

  /** The pieces of `a.b` at the point. */
  lemma SplitPointed(a: string, b: string)
    requires AllDigits(a) && AllDigits(b)
    ensures Split(a + "." + b, ".") == [a, b]
  {
    var t := a + "." + b;
    assert t[|a|..|a| + 1] == ".";
    forall j | 0 <= j < |a| ensures !OccursAt(t, ".", j) {
      assert t[j..j + 1][0] == a[j];
    }
    IndexOfFirst(t, ".", |a|);
    assert t[..|a|] == a && t[|a| + 1..] == b;
    AllDigitsNoPoint(b);
    SplitWithout(b, ".");
  }

  /** A string without an occurrence of "." has no '.' character. */
  lemma NotAPoint(p: string, k: int)
    requires NoOccurrence(p, ".") && 0 <= k < |p|
    ensures p[k] != '.'
  {
    assert p[k..k + 1] == [p[k]];
    assert !OccursAt(p, ".", k);
  }

  /** Pieces of a split at "." with no point in them are digit runs when the
      whole string had only digits and points. */
  lemma {:induction false} PiecesAreDigits(parts: seq<string>)
    requires forall i :: 0 <= i < |parts| ==> NoOccurrence(parts[i], ".")
    requires forall i :: 0 <= i < |Join(parts, ".")| ==> IsDigit(Join(parts, ".")[i]) || Join(parts, ".")[i] == '.'
    ensures forall i :: 0 <= i < |parts| ==> AllDigits(parts[i])
    decreases |parts|
  {
    if |parts| == 0 {
    } else {
      var j := Join(parts, ".");
      assert j[..|parts[0]|] == parts[0];
      forall k | 0 <= k < |parts[0]| ensures IsDigit(parts[0][k]) {
        assert parts[0][k] == j[k];
        NotAPoint(parts[0], k);
      }
      if |parts| > 1 {
        var rest := Join(parts[1..], ".");
        assert j == parts[0] + "." + rest;
        forall k | 0 <= k < |rest| ensures IsDigit(rest[k]) || rest[k] == '.' {
          assert rest[k] == j[|parts[0]| + 1 + k];
        }
        PiecesAreDigits(parts[1..]);
      }
    }
  }

  lemma DotCountOfJoin3(p: seq<string>)
    requires |p| >= 3 && AllDigits(p[0]) && AllDigits(p[1]) && AllDigits(p[2])
    ensures CountDots(Join(p, ".")) >= 2
  {
    var rest := Join(p[2..], ".");
    assert p[2..][0] == p[2];
    assert Join(p, ".") == p[0] + "." + p[1] + "." + rest;
    DotsOfConcat(p[0] + "." + p[1] + ".", rest);
    DotsOfConcat(p[0] + "." + p[1], ".");
    PointedLiteral(p[0], p[1]);
  }

  lemma {:induction false} DotsOfConcat(a: string, b: string)
    ensures CountDots(a + b) == CountDots(a) + CountDots(b)
    decreases |b|
  {
    if |b| == 0 {
      assert a + b == a;
    } else {
      assert (a + b)[..|a + b| - 1] == a + b[..|b| - 1];
      DotsOfConcat(a, b[..|b| - 1]);
    }
  }

  /** The value of a literal without a point. */
  lemma WholeLiteral(a: string)
    requires AllDigits(a) && |a| > 0
    ensures IsDecimalLiteral(a) && LiteralValue(a) == DigitsValue(a) as real
  {
    DigitsOnly(a);
    assert forall i :: 0 <= i < |a| ==> IsDigit(a[i]) || a[i] == '.';
    assert IsDecimalLiteral(a);
    assert Pow10(FractionLength(a)) == 1;
  }

  /** The value of a literal `a.b`. */
  lemma PointedLiteralValue(a: string, b: string)
    requires AllDigits(a) && AllDigits(b) && |a| + |b| > 0
    ensures IsDecimalLiteral(a + "." + b)
    ensures LiteralValue(a + "." + b) == DigitsValue(a) as real + DigitsValue(b) as real / Pow10(|b|) as real
  {
    var t := a + "." + b;
    PointedLiteral(a, b);
    PointedChars(a, b);
    assert IsDecimalLiteral(t);
    DigitsValueAppend(a, b);
    var p := Pow10(|b|);
    assert LiteralValue(t) == DigitsValue(a + b) as real / p as real;
    ScaleDown(DigitsValue(a + b), DigitsValue(a), DigitsValue(b), p);
  }

  lemma PointedChars(a: string, b: string)
    requires AllDigits(a) && AllDigits(b)
    ensures forall i :: 0 <= i < |a + "." + b| ==> IsDigit((a + "." + b)[i]) || (a + "." + b)[i] == '.'
  {
    var t := a + "." + b;
    forall i | 0 <= i < |t| ensures IsDigit(t[i]) || t[i] == '.' {
      if i < |a| {
        assert t[i] == a[i];
      } else if i > |a| {
        assert t[i] == b[i - |a| - 1];
      }
    }
  }

  lemma ScaleDown(v: nat, x: nat, y: nat, p: nat)
    requires p >= 1 && v == x * p + y
    ensures v as real / p as real == x as real + y as real / p as real
  {
    assert v as real == x as real * p as real + y as real;
  }

  /** A literal has one piece at the point, or two. */
  lemma LiteralSplit(t: string)
    requires IsDecimalLiteral(t)
    ensures var parts := Split(t, ".");
      (|parts| == 1 || |parts| == 2) && forall i :: 0 <= i < |parts| ==> AllDigits(parts[i])
  {
    var parts := Split(t, ".");
    PiecesAreDigits(parts);
    if |parts| >= 3 {
      DotCountOfJoin3(parts);
      assert false;
    }
  }

  lemma ParseFloatAcceptsLiterals(s: string)
    requires IsDecimalLiteral(Strip(s))
    ensures ParseFloat(s) == Some(LiteralValue(Strip(s)))
  {
    var t := Strip(s);
    LiteralSplit(t);
    if |Split(t, ".")| == 1 {
      WholePieces(t);
    } else {
      PointedSplit(t);
    }
  }

  lemma WholePieces(t: string)
    requires IsDecimalLiteral(t)
    requires |Split(t, ".")| == 1 && AllDigits(Split(t, ".")[0])
    ensures PiecesValue(Split(t, ".")) == Some(LiteralValue(t))
  {
    assert Split(t, ".")[0] == t;
    DigitsOnly(t);
    assert Pow10(FractionLength(t)) == 1;
  }

  lemma PointedSplit(t: string)
    requires IsDecimalLiteral(t)
    requires |Split(t, ".")| == 2 && AllDigits(Split(t, ".")[0]) && AllDigits(Split(t, ".")[1])
    ensures PiecesValue(Split(t, ".")) == Some(LiteralValue(t))
  {
    var a, b := Split(t, ".")[0], Split(t, ".")[1];
    assert Split(t, ".") == [a, b];
    assert t == a + "." + b;
    PointedLiteral(a, b);
    PointedPieces(a, b);
  }

  lemma PointedPieces(a: string, b: string)
    requires AllDigits(a) && AllDigits(b) && |a| + |b| > 0
    ensures IsDecimalLiteral(a + "." + b)
    ensures PiecesValue([a, b]) == Some(LiteralValue(a + "." + b))
  {
    PointedLiteralValue(a, b);
  }

  lemma ParseFloatOnlyLiterals(s: string)
    requires ParseFloat(s).Some?
    ensures IsDecimalLiteral(Strip(s))
  {
    var t := Strip(s);
    var parts := Split(t, ".");
    assert PiecesValue(parts).Some?;
    if |parts| == 1 {
      WholeLiteral(t);
    } else {
      assert t == parts[0] + "." + parts[1];
      PointedLiteralValue(parts[0], parts[1]);
    }
  }

  /** `float` accepts exactly the decimal literals (after stripping
      whitespace), and yields their value. */
  lemma ParseFloatLiteral(s: string)
    ensures ParseFloat(s).Some? <==> IsDecimalLiteral(Strip(s))
    ensures ParseFloat(s).Some? ==> ParseFloat(s).value == LiteralValue(Strip(s))
  {
    if IsDecimalLiteral(Strip(s)) {
      ParseFloatAcceptsLiterals(s);
    }
    if ParseFloat(s).Some? {
      ParseFloatOnlyLiterals(s);
    }
  }
}
