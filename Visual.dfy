/** The layout computed by generate_visual_content: canvas, base layer,
    band, wrapped and trimmed caption lines, and the row of every line. */
module Visual {
  import opened Canvas
  import opened Wrap

  /** Shown when the caption is empty. */
  const Placeholder: string := "請輸入文章標題以跟風熱點..."

  /** `title or placeholder`. */
  function Displayed(title: string): (t: string)
    ensures t != []
    ensures title != [] ==> t == title
    ensures title == [] ==> t == Placeholder
  {
    if title == [] then Placeholder else title
  }

  /** The numbers the renderer draws with. */
  datatype Layout = Layout(
    canvas: Size,
    base: Base,
    band: Band,
    charLimit: nat,
    finalLines: seq<string>,   // the pieces before trimming
    lines: seq<string>,        // the lines drawn
    tops: seq<real>)           // the top row of each drawn line

  /** The wrapped pieces of a caption, paragraph by paragraph. */
  function FinalLines(title: string, limit: nat): (pieces: seq<string>)
    requires 0 < limit
    ensures Flatten(pieces) == Flatten(Split(Displayed(title)))
    ensures forall i :: 0 <= i < |pieces| ==> 0 < |pieces[i]| <= limit && '\n' !in pieces[i]
  {
    WrappedFlatten(Split(Displayed(title)), limit);
    WrappedBounds(Split(Displayed(title)), limit);
    Wrapped(Split(Displayed(title)), limit)
  }

  method GenerateVisualContent(title: string, ratio: string, upload: Upload) returns (v: Layout)
    ensures v.canvas == CanvasSize(ratio)
    ensures v.base == BaseLayer(v.canvas, upload) && BaseSize(v.base) == v.canvas
    ensures v.band == Band(750, 900)
    ensures v.charLimit == (if ratio == "4:3" then 24 else 36)
    ensures v.finalLines == FinalLines(title, v.charLimit)
    ensures Flatten(v.finalLines) == Flatten(Split(Displayed(title)))
    ensures v.lines == Cleaned(v.finalLines)
    ensures forall i :: 0 <= i < |v.lines| ==> Displayable(v.lines[i], v.charLimit)
    ensures v.tops == LineTops(v.band, |v.lines|) && |v.tops| == |v.lines|
    ensures forall i :: 0 <= i < |v.tops| ==> v.tops[i] == 825.0 - |v.lines| as real * 26.0 + i as real * 52.0
  {
    var canvas := CanvasSize(ratio);
    var base := BaseLayer(canvas, upload);
    BaseLayerHasCanvasSize(canvas, upload);
    var band := OverlayBand(canvas.height);
    var article := Displayed(title);
    var limit := CharLimit(canvas.width);
    var paragraphs := Split(article);
    var finalLines := WrapParagraphs(paragraphs, limit);
    WrappedFlatten(paragraphs, limit);
    WrappedBounds(paragraphs, limit);
    var lines := Cleaned(finalLines);
    CleanedSound(finalLines, limit);
    var tops := LineTops(band, |lines|);
    assert LineHeight == 52.0 && BandCenter(band) == 825.0;
    assert TextTop(band, |lines|) == 825.0 - |lines| as real * 26.0;
    v := Layout(canvas, base, band, limit, finalLines, lines, tops);
  }

  /** Paragraphs never merge: the pieces of a + "\n" + b are the pieces of a
      followed by the pieces of b, and so are the lines drawn. */
  lemma CaptionAtBreak(a: string, b: string, limit: nat)
    requires 0 < limit
    ensures FinalLines(a + "\n" + b, limit) == Wrapped(Split(a), limit) + Wrapped(Split(b), limit)
    ensures Cleaned(FinalLines(a + "\n" + b, limit)) ==
            Cleaned(Wrapped(Split(a), limit)) + Cleaned(Wrapped(Split(b), limit))
  {
    assert Displayed(a + "\n" + b) == a + "\n" + b by {
      assert |a + "\n" + b| > 0;
    }
    SplitAtBreak(a, b);
    WrappedAppend(Split(a), Split(b), limit);
    CleanedAppend(Wrapped(Split(a), limit), Wrapped(Split(b), limit));
  }

  /** A non-blank caption of at most `limit` characters without a line break
      is drawn as exactly one line: the caption trimmed. */
  lemma ShortCaptionOneLine(title: string, limit: nat)
    requires 0 < |title| <= limit && '\n' !in title
    requires exists i :: 0 <= i < |title| && !IsSpace(title[i])
    ensures Cleaned(FinalLines(title, limit)) == [Strip(title)]
  {
    NoBreakSplit(title);
    assert Split(title)[..0] == [];
    assert Wrapped([title], limit) == Wrapped([], limit) + Chunks(title, limit);
    assert FinalLines(title, limit) == [title];
    StripSound(title);
    assert StripAll([title]) == [Strip(title)];
    assert NonEmpty([Strip(title)]) == [Strip(title)] + NonEmpty([]);
  }

  /** An empty caption shows the placeholder, which is drawn as one line on
      every canvas, since it has 15 characters. */
  lemma EmptyCaptionPlaceholder(limit: nat)
    requires 15 <= limit
    ensures Cleaned(FinalLines("", limit)) == [Placeholder]
  {
    var p := Placeholder;
    assert |p| == 15;
    assert p[0] == '請' && p[14] == '.';
    assert !IsSpace(p[0]) && !IsSpace(p[14]);
    assert forall i :: 0 <= i < |p| ==> p[i] != '\n';
    ShortCaptionOneLine(p, limit);
    assert StripLeft(p) == p;
    assert StripRight(p) == p;
  }
}
