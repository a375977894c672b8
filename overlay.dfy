/**
 * The text block of the intro overlay and its auto-hide delay. The block is
 * a string template: a wrapper naming the font, then one line per text div
 * (the title always, each subtitle only when it is truthy), all sharing one
 * colour and one four-layer shadow.
 */
module Overlay {
  import opened Wrappers

  /** An argument as a template literal sees it. */
  datatype JsValue = Undefined | Null | Str(s: string)

  /** `${v}` */
  function Interpolate(v: JsValue): string
  {
    match v
    case Undefined => "undefined"
    case Null => "null"
    case Str(s) => s
  }

  predicate Truthy(v: JsValue)
  {
    v.Str? && v.s != []
  }

  const DefaultTextColor: string := "#ad0a0a"
  const DefaultTextShadow: string := "#ffffff"

  /** A default parameter replaces an omitted (undefined) argument only; null is printed as "null". */
  function WithDefault(v: JsValue, default: string): (s: string)
    ensures v.Undefined? ==> s == default
    ensures v.Str? ==> s == v.s
  {
    if v.Undefined? then default else Interpolate(v)
  }

  // ---------------------------------------------------------------------
  // The text-shadow value

  /** The four shadow offsets, in the order the template lists them. */
  const ShadowOffsets: seq<string> := ["2px 2px", "-2px -2px", "2px -2px", "-2px 2px"]

  const LayerSeparator: string := ",\n\t\t    "

  /** One layer per offset, each with blur 0 and the shadow colour, joined by the separator. */
  function ShadowLayers(offsets: seq<string>, color: string): string
    decreases |offsets|
  {
    if offsets == [] then []
    else if |offsets| == 1 then offsets[0] + " 0 " + color
    else ShadowLayers(offsets[..|offsets| - 1], color) + (LayerSeparator + offsets[|offsets| - 1] + " 0 ") + color
  }

  /** The shadow template literal. */
  function Shadow(color: string): (css: string)
    ensures css == ShadowLayers(ShadowOffsets, color)
  {
    var css := "2px 2px 0 " + color + ",\n\t\t    -2px -2px 0 " + color + ",\n\t\t    2px -2px 0 " + color + ",\n\t\t    -2px 2px 0 " + color;
    ShadowIsFourLayers(color);
    css
  }

  lemma ShadowIsFourLayers(color: string)
    ensures "2px 2px 0 " + color + ",\n\t\t    -2px -2px 0 " + color + ",\n\t\t    2px -2px 0 " + color + ",\n\t\t    -2px 2px 0 " + color
         == ShadowLayers(ShadowOffsets, color)
  {
    var o := ShadowOffsets;
    var sep := LayerSeparator;
    assert o[..3][..2][..1] == o[..1] == ["2px 2px"];
    assert o[..3][..2] == o[..2] && o[..4] == o;
    var a, b, c, d := "2px 2px 0 ", ",\n\t\t    -2px -2px 0 ", ",\n\t\t    2px -2px 0 ", ",\n\t\t    -2px 2px 0 ";
    assert a == "2px 2px" + " 0 ";
    assert b == sep + "-2px -2px" + " 0 ";
    assert c == sep + "2px -2px" + " 0 ";
    assert d == sep + "-2px 2px" + " 0 ";
    assert ShadowLayers(o[..1], color) == a + color;
    assert ShadowLayers(o[..2], color) == a + color + b + color;
    assert ShadowLayers(o[..3], color) == a + color + b + color + c + color;
  }

  // ---------------------------------------------------------------------
  // The text divs

  datatype DivKind = TitleDiv | SubtitleDiv

  datatype TextDiv = TextDiv(kind: DivKind, color: string, shadowColor: string, text: string)

  function ClassName(kind: DivKind): string
  {
    match kind
    case TitleDiv => "dynamic-intro-text dynamic-title"
    case SubtitleDiv => "dynamic-intro-text dynamic-subtitle"
  }

  function DivHtml(d: TextDiv): string
  {
    "<div class=\"" + ClassName(d.kind) + "\" style=\"color: " + d.color + "; text-shadow: " + Shadow(d.shadowColor) + ";\">"
      + d.text + "</div>"
  }

  function SubtitleSlot(subtitle: JsValue, color: string, shadowColor: string): (slot: Option<TextDiv>)
    ensures slot.Some? <==> Truthy(subtitle)
  {
    if Truthy(subtitle) then Some(TextDiv(SubtitleDiv, color, shadowColor, subtitle.s)) else None
  }

  /**
   * What each of the three lines inside the wrapper shows: the title line is
   * always filled, a subtitle line only when its subtitle is truthy, and every
   * div carries the same colour and shadow, defaulted when omitted.
   */
  function TextSlots(title: JsValue, subtitle1: JsValue, subtitle2: JsValue, textColor: JsValue, textShadow: JsValue)
    : (slots: seq<Option<TextDiv>>)
    ensures |slots| == 3
    ensures slots[0].Some? && slots[0].value.kind == TitleDiv && slots[0].value.text == Interpolate(title)
    ensures slots[1].Some? <==> Truthy(subtitle1)
    ensures slots[2].Some? <==> Truthy(subtitle2)
    ensures slots[1].Some? ==> slots[1].value.kind == SubtitleDiv && slots[1].value.text == subtitle1.s
    ensures slots[2].Some? ==> slots[2].value.kind == SubtitleDiv && slots[2].value.text == subtitle2.s
    ensures forall i | 0 <= i < 3 && slots[i].Some? ::
      slots[i].value.color == WithDefault(textColor, DefaultTextColor) &&
      slots[i].value.shadowColor == WithDefault(textShadow, DefaultTextShadow)
  {
    var color := WithDefault(textColor, DefaultTextColor);
    var shadowColor := WithDefault(textShadow, DefaultTextShadow);
    [Some(TextDiv(TitleDiv, color, shadowColor, Interpolate(title))),
     SubtitleSlot(subtitle1, color, shadowColor),
     SubtitleSlot(subtitle2, color, shadowColor)]
  }

  // ---------------------------------------------------------------------
  // The whole block

  const Lead: string := "\n        "
  const LineBreak: string := "\n            "
  const Close: string := "\n        </div>\n    "

  const WrapperStyle: string := "<div class=\"dynamic-intro-text-wrapper\" style=\""

  /** The font, single-quoted, with a sans-serif fallback. */
  function FontFamily(font: string): string
  {
    "font-family: '" + font + "', sans-serif;"
  }

  function WrapperOpen(font: string): string
  {
    WrapperStyle + FontFamily(font) + "\">"
  }

  function SlotHtml(slot: Option<TextDiv>): string
  {
    match slot
    case Some(d) => DivHtml(d)
    case None => ""
  }

  /** Each line of the block on a fresh, indented line of its own. */
  function Lines(lines: seq<string>): string
    decreases |lines|
  {
    if lines == [] then "" else LineBreak + lines[0] + Lines(lines[1..])
  }

  /** The html of each slot; an empty slot leaves an empty line. */
  function SlotLines(slots: seq<Option<TextDiv>>): (lines: seq<string>)
    ensures |lines| == |slots|
    ensures forall i | 0 <= i < |slots| :: lines[i] == SlotHtml(slots[i])
    decreases |slots|
  {
    if slots == [] then [] else [SlotHtml(slots[0])] + SlotLines(slots[1..])
  }

  /**
   * buildTextElements: the wrapper naming the font, one line per slot, and
   * the closing tag. A missing subtitle argument defaults to null, which is
   * falsy like undefined.
   */
  function BuildTextElements(title: JsValue, font: JsValue, subtitle1: JsValue, subtitle2: JsValue,
                             textColor: JsValue, textShadow: JsValue): string
  {
    Lead + WrapperOpen(Interpolate(font)) + Lines(SlotLines(TextSlots(title, subtitle1, subtitle2, textColor, textShadow))) + Close
  }

  // ---------------------------------------------------------------------
  // Where things appear in the block

  predicate Occurs(s: string, piece: string, at: nat)
  {
    at + |piece| <= |s| && s[at..at + |piece|] == piece
  }

  lemma OccursAfter(a: string, b: string, piece: string, at: nat)
    requires Occurs(b, piece, at)
    ensures Occurs(a + b, piece, |a| + at)
  {
    assert (a + b)[|a| + at..|a| + at + |piece|] == b[at..at + |piece|];
  }

  lemma OccursBefore(a: string, b: string, piece: string, at: nat)
    requires Occurs(a, piece, at)
    ensures Occurs(a + b, piece, at)
  {
    assert (a + b)[at..at + |piece|] == a[at..at + |piece|];
  }

  lemma OccursWithin(s: string, outer: string, at: nat, piece: string, offset: nat)
    requires Occurs(s, outer, at) && Occurs(outer, piece, offset)
    ensures Occurs(s, piece, at + offset)
  {
    forall k | 0 <= k < |piece| ensures s[at + offset + k] == piece[k] {
      assert outer[offset..offset + |piece|][k] == piece[k];
      assert s[at..at + |outer|][offset + k] == outer[offset + k];
    }
    assert s[at + offset..at + offset + |piece|] == piece;
  }

  /** Where the n-th line's content starts inside Lines(lines). */
  function LineStart(lines: seq<string>, n: nat): nat
    requires n < |lines|
    decreases n
  {
    if n == 0 then |LineBreak|
    else |LineBreak| + |lines[0]| + LineStart(lines[1..], n - 1)
  }

  lemma {:induction false} LineOccurs(lines: seq<string>, n: nat)
    requires n < |lines|
    ensures Occurs(Lines(lines), lines[n], LineStart(lines, n))
    decreases n
  {
    var head := LineBreak + lines[0];
    assert Lines(lines) == head + Lines(lines[1..]);
    if n == 0 {
      assert head[|LineBreak|..] == lines[0];
      OccursBefore(head, Lines(lines[1..]), lines[0], |LineBreak|);
    } else {
      LineOccurs(lines[1..], n - 1);
      OccursAfter(head, Lines(lines[1..]), lines[n], LineStart(lines[1..], n - 1));
    }
  }

  /** Lines are written in order, each after the previous one ends. */
  lemma {:induction false} LinesInOrder(lines: seq<string>, m: nat, n: nat)
    requires m < n < |lines|
    ensures LineStart(lines, m) + |lines[m]| < LineStart(lines, n)
    decreases n
  {
    if m > 0 {
      LinesInOrder(lines[1..], m - 1, n - 1);
    } else if n > 1 {
      LinesInOrder(lines[1..], 0, n - 1);
    }
  }

  /** A div shows its text unchanged, right before its closing tag. */
  lemma TextInDiv(d: TextDiv)
    ensures Occurs(DivHtml(d), d.text + "</div>", |DivHtml(d)| - |d.text + "</div>"|)
  {
    var open := "<div class=\"" + ClassName(d.kind) + "\" style=\"color: " + d.color + "; text-shadow: "
      + Shadow(d.shadowColor) + ";\">";
    assert DivHtml(d) == open + (d.text + "</div>");
    assert (open + (d.text + "</div>"))[|open|..] == d.text + "</div>";
  }

  /** In lead + open + body + close, open follows the lead and close ends the string. */
  lemma FrameOccurs(lead: string, open: string, body: string, close: string)
    ensures Occurs(lead + open + body + close, open, |lead|)
    ensures Occurs(lead + open + body + close, close, |lead + open + body + close| - |close|)
  {
    var s := lead + open + body + close;
    assert s[|lead|..|lead| + |open|] == open;
    assert s[|s| - |close|..] == close;
  }

  /** A piece of the body of open + body + close sits |open| further on. */
  lemma InFrame(open: string, body: string, close: string, piece: string, at: nat)
    requires Occurs(body, piece, at)
    ensures Occurs(open + body + close, piece, |open| + at)
  {
    OccursAfter(open, body, piece, at);
    OccursBefore(open + body, close, piece, |open| + at);
  }

  /** Every line of a block sits at its line start, after the opening part. */
  lemma BlockLines(open: string, lines: seq<string>, close: string, n: nat)
    requires n < |lines|
    ensures Occurs(open + Lines(lines) + close, lines[n], |open| + LineStart(lines, n))
  {
    LineOccurs(lines, n);
    InFrame(open, Lines(lines), close, lines[n], LineStart(lines, n));
  }

  /**
   * The title div is written first, then the subtitle-1 line, then the
   * subtitle-2 line, each one after the previous one ends.
   */
  lemma DivOrder(open: string, lines: seq<string>, html: string)
    requires |lines| == 3
    requires html == open + Lines(lines) + Close
    ensures Occurs(html, lines[0], |open| + LineStart(lines, 0))
    ensures Occurs(html, lines[1], |open| + LineStart(lines, 1))
    ensures Occurs(html, lines[2], |open| + LineStart(lines, 2))
    ensures LineStart(lines, 0) + |lines[0]| < LineStart(lines, 1)
    ensures LineStart(lines, 1) + |lines[1]| < LineStart(lines, 2)
  {
    BlockLines(open, lines, Close, 0);
    BlockLines(open, lines, Close, 1);
    BlockLines(open, lines, Close, 2);
    LinesInOrder(lines, 0, 1);
    LinesInOrder(lines, 1, 2);
  }

  /** The block opens with the wrapper naming the font and ends with the closing tag. */
  lemma BlockFrame(title: JsValue, font: JsValue, subtitle1: JsValue, subtitle2: JsValue,
                   textColor: JsValue, textShadow: JsValue)
    ensures var html := BuildTextElements(title, font, subtitle1, subtitle2, textColor, textShadow);
      && Occurs(html, WrapperOpen(Interpolate(font)), |Lead|)
      && Occurs(html, Close, |html| - |Close|)
  {
    var body := Lines(SlotLines(TextSlots(title, subtitle1, subtitle2, textColor, textShadow)));
    FrameOccurs(Lead, WrapperOpen(Interpolate(font)), body, Close);
  }

  /** The wrapper declares the given font, single-quoted, with a sans-serif fallback. */
  lemma FontFamilyInBlock(title: JsValue, font: JsValue, subtitle1: JsValue, subtitle2: JsValue,
                          textColor: JsValue, textShadow: JsValue)
    ensures Occurs(BuildTextElements(title, font, subtitle1, subtitle2, textColor, textShadow),
                   "font-family: '" + Interpolate(font) + "', sans-serif;", |Lead| + |WrapperStyle|)
  {
    var family := FontFamily(Interpolate(font));
    assert family[0..|family|] == family;
    InFrame(WrapperStyle, family, "\">", family, 0);
    BlockFrame(title, font, subtitle1, subtitle2, textColor, textShadow);
    OccursWithin(BuildTextElements(title, font, subtitle1, subtitle2, textColor, textShadow),
                 WrapperOpen(Interpolate(font)), |Lead|, family, |WrapperStyle|);
  }

  /** The block is the wrapper opening, one line per slot, and the closing tag. */
  lemma BlockShape(title: JsValue, font: JsValue, subtitle1: JsValue, subtitle2: JsValue,
                   textColor: JsValue, textShadow: JsValue)
    ensures var lines := SlotLines(TextSlots(title, subtitle1, subtitle2, textColor, textShadow));
      && |lines| == 3
      && BuildTextElements(title, font, subtitle1, subtitle2, textColor, textShadow)
         == Lead + WrapperOpen(Interpolate(font)) + Lines(lines) + Close
  {
  }

  lemma LinesOfThree(a: string, b: string, c: string)
    ensures Lines([a, b, c]) == LineBreak + a + LineBreak + b + LineBreak + c
  {
    assert [a, b, c][1..] == [b, c];
    assert [b, c][1..] == [c];
    assert [c][1..] == [];
    assert Lines([c]) == LineBreak + c + "";
    assert LineBreak + c + "" == LineBreak + c;
    assert Lines([b, c]) == LineBreak + b + (LineBreak + c);
    assert Lines([a, b, c]) == LineBreak + a + (LineBreak + b + (LineBreak + c));
  }

  /** A block of three lines, written out. */
  lemma ThreeLineBlock(open: string, a: string, b: string, c: string)
    ensures open + Lines([a, b, c]) + Close == open + LineBreak + a + LineBreak + b + LineBreak + c + Close
  {
    LinesOfThree(a, b, c);
  }

  /** The three lines of the block: the title div, then each subtitle's div or nothing. */
  lemma SlotLinesLayout(title: JsValue, subtitle1: JsValue, subtitle2: JsValue, textColor: JsValue, textShadow: JsValue)
    ensures var color := WithDefault(textColor, DefaultTextColor);
      var shadow := WithDefault(textShadow, DefaultTextShadow);
      SlotLines(TextSlots(title, subtitle1, subtitle2, textColor, textShadow))
      == [DivHtml(TextDiv(TitleDiv, color, shadow, Interpolate(title))),
          if Truthy(subtitle1) then DivHtml(TextDiv(SubtitleDiv, color, shadow, subtitle1.s)) else "",
          if Truthy(subtitle2) then DivHtml(TextDiv(SubtitleDiv, color, shadow, subtitle2.s)) else ""]
  {
  }

  /**
   * The template line by line: the wrapper, the title div, then for each
   * subtitle its div when it is truthy and nothing otherwise, then the
   * closing tag. No other div is written.
   */
  lemma BlockLayout(title: JsValue, font: JsValue, subtitle1: JsValue, subtitle2: JsValue,
                    textColor: JsValue, textShadow: JsValue)
    ensures var color := WithDefault(textColor, DefaultTextColor);
      var shadow := WithDefault(textShadow, DefaultTextShadow);
      BuildTextElements(title, font, subtitle1, subtitle2, textColor, textShadow)
      == Lead + WrapperOpen(Interpolate(font))
         + LineBreak + DivHtml(TextDiv(TitleDiv, color, shadow, Interpolate(title)))
         + LineBreak + (if Truthy(subtitle1) then DivHtml(TextDiv(SubtitleDiv, color, shadow, subtitle1.s)) else "")
         + LineBreak + (if Truthy(subtitle2) then DivHtml(TextDiv(SubtitleDiv, color, shadow, subtitle2.s)) else "")
         + Close
  {
    var color := WithDefault(textColor, DefaultTextColor);
    var shadow := WithDefault(textShadow, DefaultTextShadow);
    var a := DivHtml(TextDiv(TitleDiv, color, shadow, Interpolate(title)));
    var b := if Truthy(subtitle1) then DivHtml(TextDiv(SubtitleDiv, color, shadow, subtitle1.s)) else "";
    var c := if Truthy(subtitle2) then DivHtml(TextDiv(SubtitleDiv, color, shadow, subtitle2.s)) else "";
    BlockShape(title, font, subtitle1, subtitle2, textColor, textShadow);
    SlotLinesLayout(title, subtitle1, subtitle2, textColor, textShadow);
    ThreeLineBlock(Lead + WrapperOpen(Interpolate(font)), a, b, c);
  }

  /** With the colour arguments omitted, every div is drawn in #ad0a0a with a #ffffff shadow. */
  lemma OmittedColoursDefault(title: JsValue, subtitle1: JsValue, subtitle2: JsValue)
    ensures forall d | d in TextSlots(title, subtitle1, subtitle2, Undefined, Undefined) && d.Some? ::
      d.value.color == "#ad0a0a" && d.value.shadowColor == "#ffffff"
  {
  }

  // ---------------------------------------------------------------------
  // The auto-hide delay

  /** The stored fadeOutSeconds setting; Unset stands for undefined or null. */
  datatype FadeSetting = Unset | Seconds(n: int)

  /** `(setting || 5) * 1000`. */
  function FadeOutMs(setting: FadeSetting): (ms: int)
    ensures setting.Unset? || setting.n == 0 ==> ms == 5000
    ensures setting.Seconds? && setting.n != 0 ==> ms == 1000 * setting.n
  {
    var seconds := if setting.Unset? || setting.n == 0 then 5 else setting.n;
    seconds * 1000
  }

  /** The delay is never zero, and a value inside the registered slider range 2..8 gives 2 to 8 seconds. */
  lemma FadeOutBounds(setting: FadeSetting)
    ensures FadeOutMs(setting) != 0 && FadeOutMs(setting) % 1000 == 0
    ensures setting.Seconds? && 2 <= setting.n <= 8 ==> 2000 <= FadeOutMs(setting) <= 8000
  {
  }
}
