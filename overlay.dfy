/**
 * The overlay interpreter: the loops of `drawOverlayFromFile`, which walk the
 * font blocks of the overlay document and their lines, substitute the
 * `%token%` placeholders, resolve the coordinates and issue the draw calls.
 * The image is abstracted to its size and a text-measuring function; the
 * drawing is the list of `draw.text` calls, in order.
 */
module Overlay {
  import opened Wrappers
  import opened Text
  import opened Weather

  /** One line element: its tag, its text (empty when it has none) and its `x` and `y` attributes. */
  datatype LineSpec = LineSpec(tag: string, text: string, x: Option<string>, y: Option<string>)

  /** One font block: its attributes and its line elements. */
  datatype FontBlock = FontBlock(
    size: Option<string>,
    fill: Option<string>,
    file: Option<string>,
    align: Option<string>,
    border: Option<string>,
    borderColor: Option<string>,
    lines: seq<LineSpec>)

  /** The font `ImageFont.truetype` loads: the block's own file, or the configured overlay font. */
  datatype Font = DefaultFont(size: int) | FileFont(file: string, size: int)

  datatype Border = NoBorder | Border(width: int, colour: string)

  /** What a font block fixes for all its lines. */
  datatype Style = Style(font: Font, fill: string, rightAligned: bool, border: Border)

  /** The width and height `draw.textsize` reports. */
  datatype Extent = Extent(width: int, height: int)

  /** The opened wallpaper: its size, and `draw.textsize` as a function of font and text. */
  datatype Canvas = Canvas(width: int, height: int, measure: (Font, string) -> Extent)

  /** One `draw.text((x, y), text, fill=colour)` call. */
  datatype DrawCmd = DrawCmd(x: int, y: int, text: string, colour: string)

  /** Why rendering stops; every one of these is an uncaught exception in the source. */
  datatype LayoutError =
    | BadSize(block: nat)                   // `size` missing or not an integer
    | NoFill(block: nat)                    // `fill` missing
    | BadBorder(block: nat)                 // `border` present but not an integer
    | NoErrorMessage(block: nat, line: nat) // an `errorline` drawn for a status without `errormsg`
    | NoX(block: nat, line: nat)            // `x` missing or not an integer
    | NoY(block: nat, line: nat)            // `y` missing or not an integer and no earlier y

  const ErrorLineTag := "errorline"
  const DegreeSign := "\U{B0}"

  // ---------------------------------------------------------------- font blocks

  /** The settings of one font block, read in the order the source reads them. */
  function BlockStyle(block: FontBlock, index: nat): (r: Result<Style, LayoutError>)
    ensures r.Ok? <==> AttrInt(block.size).Some? && block.fill.Some?
                       && (block.border.Some? ==> ParseInt(block.border.value).Some?)
    ensures AttrInt(block.size).None? ==> r == Err(BadSize(index))
    ensures AttrInt(block.size).Some? && block.fill.None? ==> r == Err(NoFill(index))
    ensures (AttrInt(block.size).Some? && block.fill.Some? && block.border.Some? && ParseInt(block.border.value).None?)
            ==> r == Err(BadBorder(index))
    ensures r.Ok? ==> r.value.font == if block.file.Some? then FileFont(block.file.value, AttrInt(block.size).value)
                                      else DefaultFont(AttrInt(block.size).value)
    ensures r.Ok? ==> r.value.fill == block.fill.value
    ensures r.Ok? ==> (r.value.rightAligned <==> block.align == Some("right"))
    ensures r.Ok? ==> (r.value.border.Border? <==> block.border.Some? && block.borderColor.Some?)
    ensures r.Ok? && r.value.border.Border? ==>
              r.value.border == Border(ParseInt(block.border.value).value, block.borderColor.value)
  {
    match AttrInt(block.size)
    case None => Err(BadSize(index))
    case Some(size) =>
      if block.fill.None? then Err(NoFill(index))
      else
        var font := if block.file.Some? then FileFont(block.file.value, size) else DefaultFont(size);
        var right := block.align == Some("right");
        if block.border.None? then Ok(Style(font, block.fill.value, right, NoBorder))
        else match ParseInt(block.border.value)
          case None => Err(BadBorder(index))
          case Some(width) =>
            // A `border` without a `bordercolor` raises the KeyError that also clears `border`.
            var border := if block.borderColor.Some? then Border(width, block.borderColor.value) else NoBorder;
            Ok(Style(font, block.fill.value, right, border))
  }

  /** `int(attrib[name])`, `None` when the attribute is missing or not an integer. */
  function AttrInt(attr: Option<string>): Option<int> {
    if attr.None? then None else ParseInt(attr.value)
  }

  // ---------------------------------------------------------------- substitution

  /** The replacements of an ordinary line, in the order the source applies them. */
  function Substitute(text: string, status: Status, metricUnits: bool): string {
    var t1 := Replace(text, "%title%", status.title);
    var t2 := Replace(t1, "%author%", status.author);
    var t3 := Replace(t2, "%temp%", status.temp);
    var t4 := Replace(t3, "%degree%", DegreeSign);
    var t5 := Replace(t4, "%unit%", if metricUnits then "C" else "F");
    var t6 := Replace(t5, "%condition%", status.condition);
    var t7 := Replace(t6, "%humidity%", status.humidity);
    var t8 := Replace(t7, "%date%", status.date);
    Replace(t8, "%forecast%", status.forecast)
  }

  /** The template contains none of the tokens of an ordinary line. */
  predicate FreeOfTokens(text: string) {
    && !Occurs("%title%", text) && !Occurs("%author%", text) && !Occurs("%temp%", text)
    && !Occurs("%degree%", text) && !Occurs("%unit%", text) && !Occurs("%condition%", text)
    && !Occurs("%humidity%", text) && !Occurs("%date%", text) && !Occurs("%forecast%", text)
  }

  /** A template without tokens is drawn as it is. */
  lemma SubstituteFreeOfTokens(text: string, status: Status, metricUnits: bool)
    requires FreeOfTokens(text)
    ensures Substitute(text, status, metricUnits) == text
  {
    ReplaceAbsent(text, "%title%", status.title);
    ReplaceAbsent(text, "%author%", status.author);
    ReplaceAbsent(text, "%temp%", status.temp);
    ReplaceAbsent(text, "%degree%", DegreeSign);
    ReplaceAbsent(text, "%unit%", if metricUnits then "C" else "F");
    ReplaceAbsent(text, "%condition%", status.condition);
    ReplaceAbsent(text, "%humidity%", status.humidity);
    ReplaceAbsent(text, "%date%", status.date);
    ReplaceAbsent(text, "%forecast%", status.forecast);
  }

  /** `%degree%` stands for the degree sign. */
  lemma SubstituteDegree(status: Status, metricUnits: bool)
    ensures Substitute("%degree%", status, metricUnits) == DegreeSign
  {
    DegreeBeforeItsTurn(status);
    DegreeReplaced(metricUnits);
    ConstantStays(DegreeSign, status);
  }

  lemma DegreeBeforeItsTurn(status: Status)
    ensures Replace(Replace(Replace("%degree%", "%title%", status.title), "%author%", status.author),
                    "%temp%", status.temp) == "%degree%"
  {
    PassesThree("%degree%", "%title%", status.title, 't', "%author%", status.author, 'a',
                "%temp%", status.temp, 't');
  }

  /** A text lacking one character of each of three tokens passes their replacements unchanged. */
  lemma PassesThree(t: string, p1: string, r1: string, c1: char, p2: string, r2: string, c2: char,
                    p3: string, r3: string, c3: char)
    requires |p1| > 0 && c1 in p1 && c1 !in t
    requires |p2| > 0 && c2 in p2 && c2 !in t
    requires |p3| > 0 && c3 in p3 && c3 !in t
    ensures Replace(Replace(Replace(t, p1, r1), p2, r2), p3, r3) == t
  {
    ReplaceAbsentChar(t, p1, r1, c1);
    ReplaceAbsentChar(t, p2, r2, c2);
    ReplaceAbsentChar(t, p3, r3, c3);
  }

  lemma DegreeReplaced(metricUnits: bool)
    ensures Replace(Replace("%degree%", "%degree%", DegreeSign), "%unit%", if metricUnits then "C" else "F")
            == DegreeSign
  {
    var t := "%degree%";
    ReplaceFirst("", t, DegreeSign, "");
    assert "" + t + "" == t;
    ReplaceAbsentChar(DegreeSign, "%unit%", if metricUnits then "C" else "F", '%');
  }

  /** `%unit%` stands for the unit letter the settings choose. */
  lemma SubstituteUnit(status: Status, metricUnits: bool)
    ensures Substitute("%unit%", status, metricUnits) == if metricUnits then "C" else "F"
  {
    var unit := if metricUnits then "C" else "F";
    UnitBeforeItsTurn(status);
    ReplaceFirst("", "%unit%", unit, "");
    assert "" + "%unit%" + "" == "%unit%";
    ConstantStays(unit, status);
  }

  lemma UnitBeforeItsTurn(status: Status)
    ensures Replace(Replace(Replace(Replace("%unit%", "%title%", status.title), "%author%", status.author),
                            "%temp%", status.temp), "%degree%", DegreeSign) == "%unit%"
  {
    PassesThree("%unit%", "%title%", status.title, 'l', "%author%", status.author, 'a',
                "%temp%", status.temp, 'e');
    ReplaceAbsentChar("%unit%", "%degree%", DegreeSign, 'd');
  }

  /** A text without '%' passes the replacements after `%unit%` unchanged. */
  lemma ConstantStays(t: string, status: Status)
    requires '%' !in t
    ensures var t6 := Replace(t, "%condition%", status.condition);
            var t7 := Replace(t6, "%humidity%", status.humidity);
            var t8 := Replace(t7, "%date%", status.date);
            Replace(t8, "%forecast%", status.forecast) == t
  {
    ReplaceAbsentChar(t, "%condition%", status.condition, '%');
    ReplaceAbsentChar(t, "%humidity%", status.humidity, '%');
    ReplaceAbsentChar(t, "%date%", status.date, '%');
    ReplaceAbsentChar(t, "%forecast%", status.forecast, '%');
  }

  /**
   * Whether a line applies and the text it draws: `Ok(None)` for a line that
   * is skipped. A status whose code is the error code draws only error lines,
   * any other status only the other lines.
   */
  function LineText(line: LineSpec, status: Status, errorCode: string, metricUnits: bool, block: nat, index: nat)
    : (r: Result<Option<string>, LayoutError>)
    ensures r.Ok? && r.value.Some? <==>
              (status.code != errorCode && line.tag != ErrorLineTag) ||
              (status.code == errorCode && line.tag == ErrorLineTag && status.errorMessage.Some?)
    ensures r.Err? <==> status.code == errorCode && line.tag == ErrorLineTag && status.errorMessage.None?
    ensures r.Err? ==> r.error == NoErrorMessage(block, index)
    ensures r.Ok? && r.value.Some? && status.code != errorCode ==>
              r.value.value == Substitute(line.text, status, metricUnits)
    ensures r.Ok? && r.value.Some? && status.code == errorCode ==>
              r.value.value == Replace(line.text, "%errormsg%", status.errorMessage.value)
  {
    if status.code != errorCode && line.tag != ErrorLineTag then
      Ok(Some(Substitute(line.text, status, metricUnits)))
    else if status.code == errorCode && line.tag == ErrorLineTag then
      match status.errorMessage
      case None => Err(NoErrorMessage(block, index))
      case Some(message) => Ok(Some(Replace(line.text, "%errormsg%", message)))
    else
      Ok(None)
  }

  predicate Drawn(r: Result<Option<string>, LayoutError>) {
    r.Ok? && r.value.Some?
  }

  // ---------------------------------------------------------------- coordinates

  /** An explicit coordinate; a negative one counts back from the far edge of length `extent`. */
  function FromEdge(v: int, extent: int): (r: int)
    ensures v >= 0 ==> r == v
    ensures v < 0 ==> extent - r == -v
    ensures -extent <= v < extent ==> 0 <= r < extent
  {
    if v < 0 then v + extent else v
  }

  /** The x a line is drawn at: its edge-resolved x, less the text width when right-aligned. */
  function DrawX(x: int, style: Style, canvas: Canvas, text: string): (r: int)
    ensures style.rightAligned ==> r + canvas.measure(style.font, text).width == FromEdge(x, canvas.width)
    ensures !style.rightAligned ==> r == FromEdge(x, canvas.width)
  {
    var resolved := FromEdge(x, canvas.width);
    if style.rightAligned then resolved - canvas.measure(style.font, text).width else resolved
  }

  /**
   * The y a line is drawn at: its explicit y, edge-resolved, or else the y of
   * the last drawn line plus this line's own text height.
   */
  function DrawY(y: Option<int>, previous: Option<int>, style: Style, canvas: Canvas, text: string)
    : (r: Option<int>)
    ensures y.Some? ==> r == Some(FromEdge(y.value, canvas.height))
    ensures y.None? ==> (r.Some? <==> previous.Some?)
    ensures y.None? && previous.Some? ==>
              r.value - previous.value == canvas.measure(style.font, text).height
  {
    if y.Some? then Some(FromEdge(y.value, canvas.height))
    else if previous.Some? then Some(previous.value + canvas.measure(style.font, text).height)
    else None
  }

  // ---------------------------------------------------------------- borders

  /** The four strokes of border ring `i`: orthogonal 1-pixel offsets for ring 0, diagonal ones after. */
  function Ring(x: int, y: int, text: string, colour: string, i: int): seq<DrawCmd> {
    if i == 0 then
      [DrawCmd(x - 1, y, text, colour), DrawCmd(x + 1, y, text, colour),
       DrawCmd(x, y - 1, text, colour), DrawCmd(x, y + 1, text, colour)]
    else
      [DrawCmd(x - i, y - i, text, colour), DrawCmd(x + i, y - i, text, colour),
       DrawCmd(x - i, y + i, text, colour), DrawCmd(x + i, y + i, text, colour)]
  }

  /** The strokes of rings `0 .. n - 1`, in order. */
  function Rings(x: int, y: int, text: string, colour: string, n: int): seq<DrawCmd>
    decreases n
  {
    if n <= 0 then [] else Rings(x, y, text, colour, n - 1) + Ring(x, y, text, colour, n - 1)
  }

  /** The border strokes of a line. */
  function Strokes(x: int, y: int, text: string, border: Border): seq<DrawCmd> {
    match border
    case NoBorder => []
    case Border(width, colour) => Rings(x, y, text, colour, width)
  }

  /** A border of width `n` is `4 n` strokes, none for `n <= 0`. */
  lemma {:induction false} RingsLength(x: int, y: int, text: string, colour: string, n: int)
    ensures |Rings(x, y, text, colour, n)| == if n <= 0 then 0 else 4 * n
    decreases n
  {
    if n > 0 {
      RingsLength(x, y, text, colour, n - 1);
    }
  }

  /** Every stroke of a border writes the line's text in the border colour. */
  lemma {:induction false} RingsPaint(x: int, y: int, text: string, colour: string, n: int)
    ensures forall k :: 0 <= k < |Rings(x, y, text, colour, n)| ==>
              Rings(x, y, text, colour, n)[k].colour == colour && Rings(x, y, text, colour, n)[k].text == text
    decreases n
  {
    if n > 0 {
      RingsPaint(x, y, text, colour, n - 1);
    }
  }

  /** A narrower border's strokes are the first strokes of a wider one. */
  lemma {:induction false} RingsPrefix(x: int, y: int, text: string, colour: string, m: int, n: int)
    requires 0 <= m <= n
    ensures |Rings(x, y, text, colour, m)| <= |Rings(x, y, text, colour, n)|
    ensures Rings(x, y, text, colour, n)[..|Rings(x, y, text, colour, m)|] == Rings(x, y, text, colour, m)
    decreases n
  {
    if m < n {
      RingsPrefix(x, y, text, colour, m, n - 1);
      TakeOfPrefix(Rings(x, y, text, colour, n - 1), Ring(x, y, text, colour, n - 1), |Rings(x, y, text, colour, m)|);
    }
  }

  /** Strokes `4 i .. 4 i + 3` of a border are ring `i`. */
  lemma RingsAt(x: int, y: int, text: string, colour: string, n: int, i: int)
    requires 0 <= i < n
    ensures 4 * i + 4 <= |Rings(x, y, text, colour, n)|
    ensures Rings(x, y, text, colour, n)[4 * i .. 4 * i + 4] == Ring(x, y, text, colour, i)
  {
    var upTo := Rings(x, y, text, colour, i + 1);
    var before := Rings(x, y, text, colour, i);
    RingsLength(x, y, text, colour, i);
    RingsPrefix(x, y, text, colour, i + 1, n);
    SliceOfSuffix(before, Ring(x, y, text, colour, i));
    SliceOfTake(Rings(x, y, text, colour, n), upTo, 4 * i);
  }

  lemma TakeOfPrefix(a: seq<DrawCmd>, b: seq<DrawCmd>, k: int)
    requires 0 <= k <= |a|
    ensures (a + b)[..k] == a[..k]
  {
  }

  lemma SliceOfTake(s: seq<DrawCmd>, t: seq<DrawCmd>, lo: int)
    requires |t| <= |s| && s[..|t|] == t && 0 <= lo <= |t|
    ensures s[lo .. |t|] == t[lo..]
  {
    assert s[lo .. |t|] == s[..|t|][lo..];
  }

  lemma SliceOfSuffix(a: seq<DrawCmd>, b: seq<DrawCmd>)
    ensures (a + b)[|a|..] == b
  {
  }

  // ---------------------------------------------------------------- lines and blocks

  /**
   * One line of a block: the y it leaves for the next line and the draw calls
   * it makes. A skipped line draws nothing and leaves y as it was.
   */
  function LineStep(line: LineSpec, style: Style, status: Status, settings: Settings, canvas: Canvas,
                    block: nat, index: nat, previous: Option<int>)
    : Result<(Option<int>, seq<DrawCmd>), LayoutError>
  {
    var text :- LineText(line, status, settings.errorCode, settings.metricUnits, block, index);
    if text.None? then Ok((previous, []))
    else match AttrInt(line.x)
      case None => Err(NoX(block, index))
      case Some(x) =>
        var drawX := DrawX(x, style, canvas, text.value);
        match DrawY(AttrInt(line.y), previous, style, canvas, text.value)
        case None => Err(NoY(block, index))
        case Some(drawY) =>
          Ok((Some(drawY), Strokes(drawX, drawY, text.value, style.border)
                           + [DrawCmd(drawX, drawY, text.value, style.fill)]))
  }

  /** The number of border strokes a line gets. */
  function StrokeCount(border: Border): nat {
    if border.Border? && border.width > 0 then 4 * border.width else 0
  }

  /**
   * What one line does. A skipped line draws nothing and keeps y; a drawn
   * line without an integer x fails, as does one without an integer y when no
   * line before it set one; otherwise it makes the border strokes, in the
   * border colour, and then exactly one call in the fill colour, at the
   * resolved position, and that position's y is the y the next line sees.
   */
  lemma LineStepOutcome(line: LineSpec, style: Style, status: Status, settings: Settings, canvas: Canvas,
                        block: nat, index: nat, previous: Option<int>)
    ensures var text := LineText(line, status, settings.errorCode, settings.metricUnits, block, index);
            var r := LineStep(line, style, status, settings, canvas, block, index, previous);
            && (text.Ok? && text.value.None? ==> r == Ok((previous, [])))
            && (Drawn(text) && AttrInt(line.x).None? ==> r == Err(NoX(block, index)))
            && (Drawn(text) && AttrInt(line.x).Some? && AttrInt(line.y).None? && previous.None? ==>
                  r == Err(NoY(block, index)))
            && (Drawn(text) && r.Ok? ==>
                  var calls := r.value.1;
                  var x := DrawX(AttrInt(line.x).value, style, canvas, text.value.value);
                  && AttrInt(line.x).Some?
                  && r.value.0 == DrawY(AttrInt(line.y), previous, style, canvas, text.value.value)
                  && r.value.0.Some?
                  && |calls| == StrokeCount(style.border) + 1
                  && calls[|calls| - 1] == DrawCmd(x, r.value.0.value, text.value.value, style.fill)
                  && forall k :: 0 <= k < |calls| - 1 ==>
                       calls[k].colour == style.border.colour && calls[k].text == text.value.value)
  {
    var text := LineText(line, status, settings.errorCode, settings.metricUnits, block, index);
    if Drawn(text) && AttrInt(line.x).Some? {
      var t := text.value.value;
      var x := DrawX(AttrInt(line.x).value, style, canvas, t);
      var y := DrawY(AttrInt(line.y), previous, style, canvas, t);
      if y.Some? && style.border.Border? {
        RingsLength(x, y.value, t, style.border.colour, style.border.width);
        RingsPaint(x, y.value, t, style.border.colour, style.border.width);
      }
    }
  }

  /** The lines of a block from `index` on, starting from the y `previous`. */
  function LinesFrom(block: FontBlock, style: Style, status: Status, settings: Settings, canvas: Canvas,
                     blockIndex: nat, index: nat, previous: Option<int>)
    : Result<(Option<int>, seq<DrawCmd>), LayoutError>
    requires index <= |block.lines|
    decreases |block.lines| - index
  {
    if index == |block.lines| then Ok((previous, []))
    else
      var first :- LineStep(block.lines[index], style, status, settings, canvas, blockIndex, index, previous);
      var rest :- LinesFrom(block, style, status, settings, canvas, blockIndex, index + 1, first.0);
      Ok((rest.0, first.1 + rest.1))
  }

  /** The blocks from `index` on; y carries over from one block to the next. */
  function BlocksFrom(layout: seq<FontBlock>, status: Status, settings: Settings, canvas: Canvas,
                      index: nat, previous: Option<int>)
    : Result<seq<DrawCmd>, LayoutError>
    requires index <= |layout|
    decreases |layout| - index
  {
    if index == |layout| then Ok([])
    else
      var style :- BlockStyle(layout[index], index);
      var lines :- LinesFrom(layout[index], style, status, settings, canvas, index, 0, previous);
      var rest :- BlocksFrom(layout, status, settings, canvas, index + 1, lines.0);
      Ok(lines.1 + rest)
  }

  /** The draw calls of the whole overlay document, or the error that stops it. */
  function Render(layout: seq<FontBlock>, status: Status, settings: Settings, canvas: Canvas)
    : Result<seq<DrawCmd>, LayoutError>
  {
    BlocksFrom(layout, status, settings, canvas, 0, None)
  }

  /** The error names a font block of the document and, for an error of a line, one of that block's lines. */
  predicate Locates(e: LayoutError, layout: seq<FontBlock>) {
    e.block < |layout| && ((e.NoErrorMessage? || e.NoX? || e.NoY?) ==> e.line < |layout[e.block].lines|)
  }

  /** Rendering stops only on an element that is in the document. */
  lemma RenderErrorLocated(layout: seq<FontBlock>, status: Status, settings: Settings, canvas: Canvas)
    ensures var r := Render(layout, status, settings, canvas);
            r.Err? ==> Locates(r.error, layout)
  {
    BlocksFromErrorLocated(layout, status, settings, canvas, 0, None);
  }

  lemma {:induction false} BlocksFromErrorLocated(layout: seq<FontBlock>, status: Status, settings: Settings,
                                                  canvas: Canvas, index: nat, previous: Option<int>)
    requires index <= |layout|
    ensures var r := BlocksFrom(layout, status, settings, canvas, index, previous);
            r.Err? ==> index <= r.error.block && Locates(r.error, layout)
    decreases |layout| - index
  {
    if index < |layout| {
      var style := BlockStyle(layout[index], index);
      if style.Ok? {
        LinesFromErrorLocated(layout[index], style.value, status, settings, canvas, index, 0, previous);
        var lines := LinesFrom(layout[index], style.value, status, settings, canvas, index, 0, previous);
        if lines.Ok? {
          BlocksFromErrorLocated(layout, status, settings, canvas, index + 1, lines.value.0);
        }
      }
    }
  }

  /** An error among the lines of a block is an error of one of those lines. */
  lemma {:induction false} LinesFromErrorLocated(block: FontBlock, style: Style, status: Status, settings: Settings,
                                                 canvas: Canvas, blockIndex: nat, index: nat, previous: Option<int>)
    requires index <= |block.lines|
    ensures var r := LinesFrom(block, style, status, settings, canvas, blockIndex, index, previous);
            r.Err? ==> && r.error.block == blockIndex
                       && (r.error.NoErrorMessage? || r.error.NoX? || r.error.NoY?)
                       && index <= r.error.line < |block.lines|
    decreases |block.lines| - index
  {
    if index < |block.lines| {
      var first := LineStep(block.lines[index], style, status, settings, canvas, blockIndex, index, previous);
      if first.Ok? {
        LinesFromErrorLocated(block, style, status, settings, canvas, blockIndex, index + 1, first.value.0);
      }
    }
  }

  /** No line of the document is an error line. */
  predicate NoErrorLines(layout: seq<FontBlock>) {
    forall b, l :: 0 <= b < |layout| && 0 <= l < |layout[b].lines| ==> layout[b].lines[l].tag != ErrorLineTag
  }

  /**
   * With the error status, a document without error lines draws nothing: it
   * can only fail on a font block's own attributes.
   */
  lemma {:induction false} ErrorStatusWithoutErrorLines(layout: seq<FontBlock>, status: Status,
                                                        settings: Settings, canvas: Canvas)
    requires status.code == settings.errorCode
    requires NoErrorLines(layout)
    ensures var r := Render(layout, status, settings, canvas);
            (r.Ok? ==> r.value == []) && (r.Err? ==> r.error.BadSize? || r.error.NoFill? || r.error.BadBorder?)
  {
    BlocksSkipped(layout, status, settings, canvas, 0, None);
  }

  lemma {:induction false} BlocksSkipped(layout: seq<FontBlock>, status: Status, settings: Settings,
                                         canvas: Canvas, index: nat, previous: Option<int>)
    requires index <= |layout|
    requires status.code == settings.errorCode
    requires NoErrorLines(layout)
    ensures var r := BlocksFrom(layout, status, settings, canvas, index, previous);
            (r.Ok? ==> r.value == []) && (r.Err? ==> r.error.BadSize? || r.error.NoFill? || r.error.BadBorder?)
    decreases |layout| - index
  {
    if index < |layout| {
      var style := BlockStyle(layout[index], index);
      if style.Ok? {
        LinesSkipped(layout[index], style.value, status, settings, canvas, index, 0, previous);
        BlocksSkipped(layout, status, settings, canvas, index + 1, previous);
      }
    }
  }

  lemma {:induction false} LinesSkipped(block: FontBlock, style: Style, status: Status, settings: Settings,
                                        canvas: Canvas, blockIndex: nat, index: nat, previous: Option<int>)
    requires index <= |block.lines|
    requires status.code == settings.errorCode
    requires forall l :: 0 <= l < |block.lines| ==> block.lines[l].tag != ErrorLineTag
    ensures LinesFrom(block, style, status, settings, canvas, blockIndex, index, previous) == Ok((previous, []))
    decreases |block.lines| - index
  {
    if index < |block.lines| {
      var line := block.lines[index];
      assert LineText(line, status, settings.errorCode, settings.metricUnits, blockIndex, index) == Ok(None);
      assert LineStep(line, style, status, settings, canvas, blockIndex, index, previous) == Ok((previous, []));
      LinesSkipped(block, style, status, settings, canvas, blockIndex, index + 1, previous);
      var empty: seq<DrawCmd> := [];
      assert empty + empty == empty;
      assert LinesFrom(block, style, status, settings, canvas, blockIndex, index, previous)
             == Ok((previous, empty + empty));
    }
  }

  /** `done` drawn before whatever `rest` draws. */
  function After(done: seq<DrawCmd>, rest: Result<seq<DrawCmd>, LayoutError>): Result<seq<DrawCmd>, LayoutError> {
    if rest.Ok? then Ok(done + rest.value) else rest
  }

  function LinesAfter(done: seq<DrawCmd>, rest: Result<(Option<int>, seq<DrawCmd>), LayoutError>)
    : Result<(Option<int>, seq<DrawCmd>), LayoutError>
  {
    if rest.Ok? then Ok((rest.value.0, done + rest.value.1)) else rest
  }

  // ---------------------------------------------------------------- the loops

  /** The body of the line loop: substitute, resolve x and y, draw the border and then the text. */
  method DrawLine(line: LineSpec, style: Style, status: Status, settings: Settings, canvas: Canvas,
                  block: nat, index: nat, previous: Option<int>)
    returns (r: Result<(Option<int>, seq<DrawCmd>), LayoutError>)
    ensures r == LineStep(line, style, status, settings, canvas, block, index, previous)
  {
    var text :- LineText(line, status, settings.errorCode, settings.metricUnits, block, index);
    if text.None? {
      return Ok((previous, []));
    }
    var x: int;
    match AttrInt(line.x) {
      case None => return Err(NoX(block, index));
      case Some(v) => x := FromEdge(v, canvas.width);
    }
    if style.rightAligned {
      x := x - canvas.measure(style.font, text.value).width;
    }
    var y: int;
    match AttrInt(line.y) {
      case Some(v) => y := FromEdge(v, canvas.height);
      case None =>
        if previous.None? {
          return Err(NoY(block, index));
        }
        y := previous.value + canvas.measure(style.font, text.value).height;
    }
    var calls := DrawBorder(x, y, text.value, style.border);
    calls := calls + [DrawCmd(x, y, text.value, style.fill)];
    r := Ok((Some(y), calls));
  }

  /** The border loop: `range(0, border)` rings of four strokes each. */
  method DrawBorder(x: int, y: int, text: string, border: Border) returns (calls: seq<DrawCmd>)
    ensures calls == Strokes(x, y, text, border)
  {
    calls := [];
    if border.Border? {
      var colour := border.colour;
      var i := 0;
      while i < border.width
        invariant 0 <= i
        invariant i <= border.width || i == 0
        invariant calls == Rings(x, y, text, colour, i)
      {
        if i == 0 {
          calls := calls + [DrawCmd(x - 1, y, text, colour), DrawCmd(x + 1, y, text, colour),
                            DrawCmd(x, y - 1, text, colour), DrawCmd(x, y + 1, text, colour)];
        } else {
          calls := calls + [DrawCmd(x - i, y - i, text, colour), DrawCmd(x + i, y - i, text, colour),
                            DrawCmd(x - i, y + i, text, colour), DrawCmd(x + i, y + i, text, colour)];
        }
        i := i + 1;
      }
    }
  }

  lemma LinesAfterStep(done: seq<DrawCmd>, first: seq<DrawCmd>,
                       rest: Result<(Option<int>, seq<DrawCmd>), LayoutError>)
    ensures LinesAfter(done, LinesAfter(first, rest)) == LinesAfter(done + first, rest)
  {
    if rest.Ok? {
      assert done + (first + rest.value.1) == (done + first) + rest.value.1;
    }
  }

  lemma AfterNothing(rest: Result<seq<DrawCmd>, LayoutError>)
    ensures After([], rest) == rest
  {
    if rest.Ok? {
      assert [] + rest.value == rest.value;
    }
  }

  lemma LinesAfterNothing(rest: Result<(Option<int>, seq<DrawCmd>), LayoutError>)
    ensures LinesAfter([], rest) == rest
  {
    if rest.Ok? {
      assert [] + rest.value.1 == rest.value.1;
    }
  }

  lemma AfterBlock(calls: seq<DrawCmd>, blockCalls: seq<DrawCmd>, rest: Result<seq<DrawCmd>, LayoutError>)
    ensures After(calls, After(blockCalls, rest)) == After(calls + blockCalls, rest)
  {
    if rest.Ok? {
      assert calls + (blockCalls + rest.value) == (calls + blockCalls) + rest.value;
    }
  }

  /** The font-block and line loops of `drawOverlayFromFile`. */
  method RenderOverlay(layout: seq<FontBlock>, status: Status, settings: Settings, canvas: Canvas)
    returns (r: Result<seq<DrawCmd>, LayoutError>)
    ensures r == Render(layout, status, settings, canvas)
  {
    var calls: seq<DrawCmd> := [];
    var y: Option<int> := None;
    AfterNothing(Render(layout, status, settings, canvas));
    for b := 0 to |layout|
      invariant Render(layout, status, settings, canvas)
                == After(calls, BlocksFrom(layout, status, settings, canvas, b, y))
    {
      var block := layout[b];
      var style :- BlockStyle(block, b);
      var blockCalls: seq<DrawCmd> := [];
      ghost var start := y;
      LinesAfterNothing(LinesFrom(block, style, status, settings, canvas, b, 0, start));
      for l := 0 to |block.lines|
        invariant Render(layout, status, settings, canvas)
                  == After(calls, BlocksFrom(layout, status, settings, canvas, b, start))
        invariant LinesFrom(block, style, status, settings, canvas, b, 0, start)
                  == LinesAfter(blockCalls, LinesFrom(block, style, status, settings, canvas, b, l, y))
      {
        var step :- DrawLine(block.lines[l], style, status, settings, canvas, b, l, y);
        LinesAfterStep(blockCalls, step.1, LinesFrom(block, style, status, settings, canvas, b, l + 1, step.0));
        blockCalls := blockCalls + step.1;
        y := step.0;
      }
      assert blockCalls + [] == blockCalls;
      assert LinesFrom(block, style, status, settings, canvas, b, 0, start) == Ok((y, blockCalls));
      assert BlocksFrom(layout, status, settings, canvas, b, start)
             == After(blockCalls, BlocksFrom(layout, status, settings, canvas, b + 1, y));
      AfterBlock(calls, blockCalls, BlocksFrom(layout, status, settings, canvas, b + 1, y));
      calls := calls + blockCalls;
    }
    assert calls + [] == calls;
    r := Ok(calls);
  }
}
