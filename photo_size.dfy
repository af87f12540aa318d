/** Reading a photo size from a catalogue entry such as "Carnet - 3x4cm" or
    " - 3.5x4.5cm", as `setCurrent_photo_size` does before it stores it. */
module PhotoSizes {
  import opened Util
  import opened Text

  /** A photo size in centimetres, `[width, height]` in the source. */
  datatype PhotoSize = PhotoSize(widthCm: real, heightCm: real)

  /** The pieces the two numbers are read from: the text after the one
      " - " separator, or, when there is not exactly one, the whole entry
      with every separator removed; then "cm" removed, whitespace stripped and
      the rest split at "x". */
  function Dimensions(s: string): (dims: seq<string>)
    ensures |dims| >= 1
  {
    var parts := Split(s, " - ");
    if |parts| == 2 then Split(Strip(Replace(parts[1], "cm", "")), "x")
    else Split(Strip(Replace(Replace(s, " - ", ""), "cm", "")), "x")
  }

  /** `float(dimensions[0])` and `float(dimensions[1])`; any exception
      (a missing piece or a piece that is not a number) is `None`. Pieces
      after the second are ignored, as in the source. */
  function ParseSize(s: string): (r: Option<PhotoSize>)
    ensures r.Some? ==> r.value.widthCm >= 0.0 && r.value.heightCm >= 0.0
  {
    var dims := Dimensions(s);
    var w := ParseFloat(dims[0]);
    if w.None? || |dims| < 2 then None
    else
      match ParseFloat(dims[1])
      case None => None
      case Some(h) => Some(PhotoSize(w.value, h))
  }

  /** A size is read exactly when the first two pieces are decimal literals,
      and it is their values. */
  lemma ParseSizeCharacterised(s: string)
    ensures ParseSize(s).Some? <==>
      |Dimensions(s)| >= 2 && IsDecimalLiteral(Strip(Dimensions(s)[0])) && IsDecimalLiteral(Strip(Dimensions(s)[1]))
    ensures ParseSize(s).Some? ==>
      ParseSize(s).value == PhotoSize(LiteralValue(Strip(Dimensions(s)[0])), LiteralValue(Strip(Dimensions(s)[1])))
  {
    var dims := Dimensions(s);
    ParseFloatLiteral(dims[0]);
    if |dims| >= 2 {
      ParseFloatLiteral(dims[1]);
    }
  }

  lemma LiteralChars(w: string)
    requires IsDecimalLiteral(w)
    ensures |w| > 0
    ensures forall c :: c in w ==> IsDigit(c) || c == '.'
  {
    DigitCharsShorter(w);
  }

  lemma {:induction false} DigitCharsShorter(t: string)
    ensures |DigitChars(t)| <= |t|
    decreases |t|
  {
    if |t| > 0 {
      DigitCharsShorter(t[..|t| - 1]);
    }
  }

  lemma AbsentLead(t: string, sep: string)
    requires |sep| > 0 && sep[0] !in t
    ensures NoOccurrence(t, sep)
  {
    forall j ensures !OccursAt(t, sep, j) {
      if 0 <= j && j + |sep| <= |t| {
        assert t[j..j + |sep|][0] == t[j];
      }
    }
  }

  /** `a + sep + b` splits into `a` and `b` when the first occurrence of
      `sep` is the one after `a` and `b` holds none. */
  lemma SplitOnce(a: string, sep: string, b: string)
    requires |sep| > 0
    requires forall j :: 0 <= j < |a| ==> !OccursAt(a + sep + b, sep, j)
    requires NoOccurrence(b, sep)
    ensures Split(a + sep + b, sep) == [a, b]
  {
    var t := a + sep + b;
    assert t[|a|..|a| + |sep|] == sep;
    IndexOfFirst(t, sep, |a|);
    assert t[..|a|] == a && t[|a| + |sep|..] == b;
    SplitWithout(b, sep);
  }

  lemma LeadAbsentBefore(a: string, sep: string, b: string)
    requires |sep| > 0 && sep[0] !in a
    ensures forall j :: 0 <= j < |a| ==> !OccursAt(a + sep + b, sep, j)
  {
    var t := a + sep + b;
    forall j | 0 <= j < |a| ensures !OccursAt(t, sep, j) {
      assert t[j] == a[j];
      if j + |sep| <= |t| {
        assert t[j..j + |sep|][0] == t[j];
      }
    }
  }

  /** A caption without '-' cannot hide a " - " of its own. */
  lemma LabelSeparator(caption: string)
    requires '-' !in caption
    ensures FirstCut(caption, " - ")
  {
    var t := caption + " - ";
    forall j | 0 <= j < |caption| ensures !OccursAt(t, " - ", j) {
      if j + 1 < |caption| {
        assert t[j + 1] == caption[j + 1];
      } else {
        assert t[j + 1] == ' ';
      }
      if j + 3 <= |t| {
        assert t[j..j + 3][1] == t[j + 1];
      }
    }
  }

  /** The size text "WxHcm" reduces to the two literals. */
  lemma SizeText(w: string, h: string)
    requires IsDecimalLiteral(w) && IsDecimalLiteral(h)
    ensures Split(Strip(Replace(w + "x" + h + "cm", "cm", "")), "x") == [w, h]
  {
    LiteralChars(w);
    LiteralChars(h);
    var core := w + "x" + h;
    assert 'c' !in core;
    LeadAbsentBefore(core, "cm", "");
    AbsentLead("", "cm");
    SplitOnce(core, "cm", "");
    assert core + "cm" + "" == w + "x" + h + "cm";
    assert [core, ""][1..] == [""];
    assert Join([core, ""], "") == core;
    assert Replace(w + "x" + h + "cm", "cm", "") == core;
    assert core[0] == w[0] && core[|core| - 1] == h[|h| - 1];
    StripUnpadded(core);
    LeadAbsentBefore(w, "x", h);
    AbsentLead(h, "x");
    SplitOnce(w, "x", h);
  }

  /** Two literal pieces are read as their values. */
  lemma LiteralPieces(s: string, w: string, h: string)
    requires Dimensions(s) == [w, h]
    requires IsDecimalLiteral(w) && IsDecimalLiteral(h)
    ensures ParseSize(s) == Some(PhotoSize(LiteralValue(w), LiteralValue(h)))
  {
    LiteralChars(w);
    LiteralChars(h);
    StripUnpadded(w);
    StripUnpadded(h);
    ParseFloatLiteral(w);
    ParseFloatLiteral(h);
  }

  lemma LabelledDimensions(caption: string, w: string, h: string)
    requires FirstCut(caption, " - ")
    requires IsDecimalLiteral(w) && IsDecimalLiteral(h)
    ensures Dimensions(caption + " - " + w + "x" + h + "cm") == [w, h]
  {
    LiteralChars(w);
    LiteralChars(h);
    var rest := w + "x" + h + "cm";
    assert ' ' !in rest;
    FirstCutExtends(caption, " - ", rest);
    AbsentLead(rest, " - ");
    SplitOnce(caption, " - ", rest);
    assert caption + " - " + rest == caption + " - " + w + "x" + h + "cm";
    SizeText(w, h);
  }

  /** "Label - WxHcm" reads as W by H centimetres, for any label in which
      no " - " starts earlier (a label such as "Foto-carnet" included). */
  lemma LabelledSize(caption: string, w: string, h: string)
    requires FirstCut(caption, " - ")
    requires IsDecimalLiteral(w) && IsDecimalLiteral(h)
    ensures ParseSize(caption + " - " + w + "x" + h + "cm") == Some(PhotoSize(LiteralValue(w), LiteralValue(h)))
  {
    LabelledDimensions(caption, w, h);
    LiteralPieces(caption + " - " + w + "x" + h + "cm", w, h);
  }

  /** A label without any '-' never hides a separator, so the entry reads. */
  lemma PlainLabelSize(caption: string, w: string, h: string)
    requires '-' !in caption
    requires IsDecimalLiteral(w) && IsDecimalLiteral(h)
    ensures ParseSize(caption + " - " + w + "x" + h + "cm") == Some(PhotoSize(LiteralValue(w), LiteralValue(h)))
  {
    LabelSeparator(caption);
    LabelledSize(caption, w, h);
  }

  /** " - WxHcm", an entry without a label, splits into an empty label and
      the size text, so it takes the two-piece branch of main.py:429-430 and
      reads the same way. */
  lemma UnlabelledSize(w: string, h: string)
    requires IsDecimalLiteral(w) && IsDecimalLiteral(h)
    ensures ParseSize(" - " + w + "x" + h + "cm") == Some(PhotoSize(LiteralValue(w), LiteralValue(h)))
  {
    assert "" + " - " + w + "x" + h + "cm" == " - " + w + "x" + h + "cm";
    LabelledSize("", w, h);
  }

  /** An entry holding no 'x' never yields a size. */
  lemma NoSeparatorNoSize(s: string)
    requires 'x' !in s
    ensures ParseSize(s) == None
  {
    var parts := Split(s, " - ");
    var t;
    if |parts| == 2 {
      SplitKeepsOut(s, " - ", 'x');
      ReplaceKeepsOut(parts[1], "cm", "", 'x');
      t := Strip(Replace(parts[1], "cm", ""));
      StripKeepsOut(Replace(parts[1], "cm", ""), 'x');
    } else {
      ReplaceKeepsOut(s, " - ", "", 'x');
      ReplaceKeepsOut(Replace(s, " - ", ""), "cm", "", 'x');
      t := Strip(Replace(Replace(s, " - ", ""), "cm", ""));
      StripKeepsOut(Replace(Replace(s, " - ", ""), "cm", ""), 'x');
    }
    AbsentLead(t, "x");
    SplitWithout(t, "x");
  }
}
