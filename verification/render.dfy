/**
 * The package's drawing surface: textures and subtextures, bitmap fonts, and
 * the rectangles `Renderer.draw` and `Renderer.draw_text` hand to
 * `SDL_RenderCopy`. The renderer's output is modelled as the sequence of
 * native calls it makes.
 */
module Render {
  import opened Outcomes
  import opened Native
  import opened Seqs

  /** An `SDL_Rect`: position and size. */
  datatype Rect = Rect(x: int, y: int, w: int, h: int)

  /** `Texture`: an SDL texture and the rectangle of the image this object stands for. */
  datatype Texture = Texture(texture: TextureHandle, rect: Rect) {

    function Width(): int { rect.w }

    function Height(): int { rect.h }

    /**
     * `get_texture`: a subtexture sharing this texture's handle. Its rectangle
     * is taken as given, in the coordinates of the whole image, not relative
     * to this texture's own rectangle.
     */
    function GetTexture(x: int, y: int, w: int, h: int): (t: Texture)
      ensures t.texture == texture
      ensures t.rect.x == x && t.rect.y == y
      ensures t.Width() == w && t.Height() == h
    {
      Texture(texture, Rect(x, y, w, h))
    }
  }

  /** A subtexture of a subtexture is the subtexture of the parent at the same coordinates: nothing is offset. */
  lemma SubtextureCoordinatesAbsolute(t: Texture, a: Rect, b: Rect)
    ensures t.GetTexture(a.x, a.y, a.w, a.h).GetTexture(b.x, b.y, b.w, b.h) == t.GetTexture(b.x, b.y, b.w, b.h)
  {
  }

  /** The default order of characters in a font image. */
  const DefaultFontMap: string := "abcdefghijklmnopqrstuvwxyzABCDEFGHIJKLMNOPQRSTUVWXYZ0123456789!?()@:/'., "

  /** `BitmapFont`: the font image's handle and rectangle, the glyph cell size and the character order. */
  datatype BitmapFont = BitmapFont(texture: TextureHandle, rect: Rect, width: int, height: int, fontMap: string)

  /** The `BitmapFont` constructor: it takes the handle and rectangle of the texture it is given. */
  function FontOf(t: Texture, width: int, height: int, fontMap: string): (f: BitmapFont)
    ensures f.texture == t.texture && f.rect == t.rect
    ensures f.width == width && f.height == height && f.fontMap == fontMap
  {
    BitmapFont(t.texture, t.rect, width, height, fontMap)
  }

  /** The rectangle arguments `draw` accepts: nothing, a tuple, or an already built `SDL_Rect`. */
  datatype RectArg = NoRect | TupleRect(r: Rect) | SdlRect(r: Rect)

  /** What `draw` can be given: anything with `texture` and `rect` attributes. */
  datatype Drawable = TextureObject(tex: Texture) | FontObject(font: BitmapFont) {

    function Handle(): TextureHandle
    {
      match this
      case TextureObject(t) => t.texture
      case FontObject(f) => f.texture
    }

    function Bounds(): Rect
    {
      match this
      case TextureObject(t) => t.rect
      case FontObject(f) => f.rect
    }
  }

  /** The native calls a draw makes, in order. */
  datatype RenderOp =
    | SetColorMod(texture: TextureHandle, rgba: seq<int>)
    | RenderCopy(texture: TextureHandle, src: Option<Rect>, dest: Option<Rect>)

  /** The colour modulation a tinted draw restores afterwards. */
  const White: seq<int> := [255, 255, 255, 255]

  /** A tint is used only when it is a tuple of four values. */
  predicate TintApplies(tint: Option<seq<int>>)
  {
    tint.Some? && |tint.value| == 4
  }

  /** Wrap the copies of a draw in setting and then resetting the tint. */
  function Tinted(texture: TextureHandle, tint: Option<seq<int>>, body: seq<RenderOp>): (ops: seq<RenderOp>)
  {
    if TintApplies(tint) then [SetColorMod(texture, tint.value)] + body + [SetColorMod(texture, White)]
    else body
  }

  /**
   * A tinted draw sets the tint first and restores white last, with the copies
   * in between; an untinted one makes the copies alone.
   */
  lemma TintRestored(texture: TextureHandle, tint: Option<seq<int>>, body: seq<RenderOp>)
    ensures TintApplies(tint) ==>
      && |Tinted(texture, tint, body)| == |body| + 2
      && Tinted(texture, tint, body)[0] == SetColorMod(texture, tint.value)
      && Tinted(texture, tint, body)[|body| + 1] == SetColorMod(texture, White)
      && Tinted(texture, tint, body)[1..|body| + 1] == body
    ensures !TintApplies(tint) ==> Tinted(texture, tint, body) == body
  {
  }

  /**
   * `_get_rect`: a tuple becomes that rectangle; otherwise a `Texture` stands
   * for its own rectangle; otherwise the argument passes through (`None` is the
   * whole texture or the whole target).
   */
  function GetRect(d: Drawable, arg: RectArg): Option<Rect>
  {
    if arg.TupleRect? then Some(arg.r)
    else if d.TextureObject? then Some(d.tex.rect)
    else if arg.SdlRect? then Some(arg.r)
    else None
  }

  /** Python truthiness of an optional coordinate: `None` and `0` are false. */
  predicate Truthy(v: Option<int>)
  {
    v.Some? && v.value != 0
  }

  /** The destination argument `draw` builds: `(x, y, w, h)` when no destination is given and `all([x, y])`. */
  function DestArg(d: Drawable, x: Option<int>, y: Option<int>, dest: RectArg): RectArg
  {
    if dest.NoRect? && Truthy(x) && Truthy(y) then TupleRect(Rect(x.value, y.value, d.Bounds().w, d.Bounds().h))
    else dest
  }

  /** `Renderer.draw`: one copy of the texture, between setting and resetting the tint. */
  function Draw(d: Drawable, x: Option<int>, y: Option<int>, src: RectArg, dest: RectArg, tint: Option<seq<int>>): (ops: seq<RenderOp>)
  {
    Tinted(d.Handle(), tint, [RenderCopy(d.Handle(), GetRect(d, src), GetRect(d, DestArg(d, x, y, dest)))])
  }

  /** The copy a draw makes, whatever the tint. */
  function DrawnCopy(ops: seq<RenderOp>, tint: Option<seq<int>>): RenderOp
    requires |ops| == (if TintApplies(tint) then 3 else 1)
  {
    if TintApplies(tint) then ops[1] else ops[0]
  }

  /**
   * Where a draw takes its pixels from and puts them: a tuple always wins; a
   * `Texture` otherwise uses its own rectangle for both; a font, which is no
   * `Texture`, uses the whole image. Without a destination, nonzero `x` and `y`
   * place the texture's size at (x, y).
   */
  lemma {:induction false} DrawRects(d: Drawable, x: Option<int>, y: Option<int>, src: RectArg, dest: RectArg, tint: Option<seq<int>>)
    ensures |Draw(d, x, y, src, dest, tint)| == (if TintApplies(tint) then 3 else 1)
    ensures var c := DrawnCopy(Draw(d, x, y, src, dest, tint), tint);
      && c.RenderCopy? && c.texture == d.Handle()
      && (src.TupleRect? ==> c.src == Some(src.r))
      && (src.NoRect? && d.TextureObject? ==> c.src == Some(d.tex.rect))
      && (src.NoRect? && d.FontObject? ==> c.src == None)
      && (src.SdlRect? && d.TextureObject? ==> c.src == Some(d.tex.rect))
      && (src.SdlRect? && d.FontObject? ==> c.src == Some(src.r))
      && (dest.TupleRect? ==> c.dest == Some(dest.r))
      && (dest.NoRect? && Truthy(x) && Truthy(y) ==> c.dest == Some(Rect(x.value, y.value, d.Bounds().w, d.Bounds().h)))
      && (dest.NoRect? && !(Truthy(x) && Truthy(y)) && d.TextureObject? ==> c.dest == Some(d.tex.rect))
      && (dest.NoRect? && !(Truthy(x) && Truthy(y)) && d.FontObject? ==> c.dest == None)
      && (dest.SdlRect? && d.TextureObject? ==> c.dest == Some(d.tex.rect))
      && (dest.SdlRect? && d.FontObject? ==> c.dest == Some(dest.r))
  {
    TintRestored(d.Handle(), tint, [RenderCopy(d.Handle(), GetRect(d, src), GetRect(d, DestArg(d, x, y, dest)))]);
  }

  /**
   * Drawing a subtexture without rectangles copies exactly the region it was
   * cut at, from the parent's handle, to the same place on the target.
   */
  lemma DrawSubtexture(t: Texture, x: int, y: int, w: int, h: int, tint: Option<seq<int>>)
    ensures var ops := Draw(TextureObject(t.GetTexture(x, y, w, h)), None, None, NoRect, NoRect, tint);
      && |ops| == (if TintApplies(tint) then 3 else 1)
      && DrawnCopy(ops, tint) == RenderCopy(t.texture, Some(Rect(x, y, w, h)), Some(Rect(x, y, w, h)))
  {
    DrawRects(TextureObject(t.GetTexture(x, y, w, h)), None, None, NoRect, NoRect, tint);
  }

  /**
   * Counterexample for `all([x, y])`: drawing a full 16x16 texture at (0, 10)
   * puts it at (0, 0), because the zero coordinate makes the test fail and the
   * texture's own rectangle is used as the destination.
   */
  lemma DrawAtZeroIgnoresY()
    ensures var t := Texture(TextureHandle(0), Rect(0, 0, 16, 16));
      Draw(TextureObject(t), Some(0), Some(10), NoRect, NoRect, None)
        == [RenderCopy(TextureHandle(0), Some(Rect(0, 0, 16, 16)), Some(Rect(0, 0, 16, 16)))]
  {
  }

  /** `draw` with the position test the docstring describes: both coordinates given. */
  function DrawIntended(d: Drawable, x: Option<int>, y: Option<int>, src: RectArg, dest: RectArg, tint: Option<seq<int>>): (ops: seq<RenderOp>)
  {
    var destArg := if dest.NoRect? && x.Some? && y.Some? then TupleRect(Rect(x.value, y.value, d.Bounds().w, d.Bounds().h)) else dest;
    Tinted(d.Handle(), tint, [RenderCopy(d.Handle(), GetRect(d, src), GetRect(d, destArg))])
  }

  /** With both coordinates given and no destination rectangle, the texture lands at (x, y), zero included. */
  lemma DrawIntendedPlacesAtXY(d: Drawable, x: int, y: int, src: RectArg, tint: Option<seq<int>>)
    ensures |DrawIntended(d, Some(x), Some(y), src, NoRect, tint)| == (if TintApplies(tint) then 3 else 1)
    ensures DrawnCopy(DrawIntended(d, Some(x), Some(y), src, NoRect, tint), tint).dest == Some(Rect(x, y, d.Bounds().w, d.Bounds().h))
  {
  }

  /** Python's `font_map.find(c)`: the glyph slot of `c`, -1 when the map lacks it. */
  function GlyphIndex(font: BitmapFont, c: char): int
  {
    IndexOf(font.fontMap, c)
  }

  /** The source cell of `c`: the slot's column of the font image, on the image's top row. */
  function Cell(font: BitmapFont, c: char): Rect
  {
    Rect(font.rect.x + GlyphIndex(font, c) * font.width, font.rect.y, font.width, font.height)
  }

  /** The copies `draw_text` makes for `text` when its first glyph goes at (x, y), left to right. */
  function GlyphCopies(font: BitmapFont, x: int, y: int, text: string): (ops: seq<RenderOp>)
    ensures |ops| == |text|
    ensures forall k :: 0 <= k < |ops| ==> ops[k].RenderCopy? && ops[k].src.Some? && ops[k].dest.Some?
    decreases |text|
  {
    if |text| == 0 then []
    else
      [RenderCopy(font.texture, Some(Cell(font, text[0])), Some(Rect(x, y, font.width, font.height)))]
        + GlyphCopies(font, x + font.width, y, text[1..])
  }

  /** The k-th copy takes the k-th character's cell and goes k glyph widths right of x. */
  lemma {:induction false} GlyphCopyAt(font: BitmapFont, x: int, y: int, text: string, k: int)
    requires 0 <= k < |text|
    ensures GlyphCopies(font, x, y, text)[k]
         == RenderCopy(font.texture, Some(Cell(font, text[k])), Some(Rect(x + k * font.width, y, font.width, font.height)))
    decreases k
  {
    if k > 0 {
      GlyphCopyAt(font, x + font.width, y, text[1..], k - 1);
      assert text[1..][k - 1] == text[k];
      assert (x + font.width) + (k - 1) * font.width == x + k * font.width;
    }
  }

  /** The top-left corner of the text: shifted by half or all of its width for "center" and "right". */
  function Origin(font: BitmapFont, x: int, y: int, n: int, align: string): (int, int)
  {
    var width := n * font.width;
    if align == "center" then (x - width / 2, y - font.height / 2)
    else if align == "right" then (x - width, y)
    else (x, y)
  }

  /** `Renderer.draw_text`: one copy per character, between setting and resetting the tint. */
  function DrawText(font: BitmapFont, x: int, y: int, text: string, align: string, tint: Option<seq<int>>): (ops: seq<RenderOp>)
  {
    var o := Origin(font, x, y, |text|, align);
    Tinted(font.texture, tint, GlyphCopies(font, o.0, o.1, text))
  }

  /** The copies of a `draw_text` call, without the tint calls around them. */
  function TextCopies(font: BitmapFont, x: int, y: int, text: string, align: string): seq<RenderOp>
  {
    var o := Origin(font, x, y, |text|, align);
    GlyphCopies(font, o.0, o.1, text)
  }

  /**
   * The calls of a `draw_text`, in order: the tint (when it applies), then the
   * `k`-th character's cell copied to the `k`-th glyph position of the row,
   * then white restored (when a tint was set).
   */
  lemma DrawTextOrder(font: BitmapFont, x: int, y: int, text: string, align: string, tint: Option<seq<int>>, k: int)
    requires 0 <= k < |text|
    ensures var ops := DrawText(font, x, y, text, align, tint);
      var o := Origin(font, x, y, |text|, align);
      var first := if TintApplies(tint) then 1 else 0;
      && |ops| == |text| + 2 * first
      && (TintApplies(tint) ==>
            ops[0] == SetColorMod(font.texture, tint.value) && ops[|text| + 1] == SetColorMod(font.texture, White))
      && ops[first + k] == RenderCopy(font.texture, Some(Cell(font, text[k])),
                                      Some(Rect(o.0 + k * font.width, o.1, font.width, font.height)))
  {
    var o := Origin(font, x, y, |text|, align);
    var body := GlyphCopies(font, o.0, o.1, text);
    TintRestored(font.texture, tint, body);
    GlyphCopyAt(font, o.0, o.1, text, k);
    if TintApplies(tint) {
      assert DrawText(font, x, y, text, align, tint)[1 + k] == body[k];
    }
  }

  /**
   * Glyphs sit side by side on one row: each one starts a glyph width to the
   * right of the one before, and every copy has the glyph cell's size.
   */
  lemma GlyphsAdjacent(font: BitmapFont, x: int, y: int, text: string, align: string, k: int)
    requires 0 <= k < |text| - 1
    ensures var ops := TextCopies(font, x, y, text, align);
      && ops[k + 1].dest.value.x == ops[k].dest.value.x + font.width
      && ops[k + 1].dest.value.y == ops[k].dest.value.y
      && ops[k].dest.value.w == font.width && ops[k].dest.value.h == font.height
  {
    var o := Origin(font, x, y, |text|, align);
    GlyphCopyAt(font, o.0, o.1, text, k);
    GlyphCopyAt(font, o.0, o.1, text, k + 1);
    assert o.0 + (k + 1) * font.width == o.0 + k * font.width + font.width;
  }

  /** Left alignment, and any alignment word not recognised: the first glyph starts at (x, y). */
  lemma LeftAlignedStartsAtX(font: BitmapFont, x: int, y: int, text: string, align: string)
    requires align != "center" && align != "right" && |text| > 0
    ensures TextCopies(font, x, y, text, align)[0].dest == Some(Rect(x, y, font.width, font.height))
  {
    GlyphCopyAt(font, x, y, text, 0);
  }

  /** Right alignment: the last glyph ends exactly at x. */
  lemma RightAlignedEndsAtX(font: BitmapFont, x: int, y: int, text: string)
    requires |text| > 0
    ensures var last := TextCopies(font, x, y, text, "right")[|text| - 1].dest.value;
      last.x + last.w == x && last.y == y
  {
    assert "right"[0] != "center"[0];
    var o := Origin(font, x, y, |text|, "right");
    GlyphCopyAt(font, o.0, o.1, text, |text| - 1);
    assert (|text| - 1) * font.width + font.width == |text| * font.width;
  }

  /**
   * Centre alignment: the text starts half its width (rounded down, as `//`
   * does) left of x, and the row is raised by half a glyph height; an even
   * total width is split exactly about x.
   */
  lemma CenteredAboutX(font: BitmapFont, x: int, y: int, text: string)
    requires |text| > 0
    ensures var first := TextCopies(font, x, y, text, "center")[0].dest.value;
      && first.x + (|text| * font.width) / 2 == x
      && first.y + font.height / 2 == y
      && ((|text| * font.width) % 2 == 0 ==> 2 * (x - first.x) == |text| * font.width)
  {
    var o := Origin(font, x, y, |text|, "center");
    GlyphCopyAt(font, o.0, o.1, text, 0);
  }

  /**
   * The source cell of each character: a character of the font map takes the
   * column of its first slot in the map; a character the map lacks takes the
   * column just left of the font image (slot -1).
   */
  lemma GlyphCellOfCharacter(font: BitmapFont, x: int, y: int, text: string, align: string, k: int)
    requires 0 <= k < |text|
    ensures var src := TextCopies(font, x, y, text, align)[k].src.value;
      && src.y == font.rect.y && src.w == font.width && src.h == font.height
      && (text[k] in font.fontMap ==>
            exists slot :: 0 <= slot < |font.fontMap| && font.fontMap[slot] == text[k]
                        && text[k] !in font.fontMap[..slot]
                        && src.x == font.rect.x + slot * font.width)
      && (text[k] !in font.fontMap ==> src.x == font.rect.x - font.width)
  {
    var o := Origin(font, x, y, |text|, align);
    GlyphCopyAt(font, o.0, o.1, text, k);
    var slot := GlyphIndex(font, text[k]);
    if text[k] in font.fontMap {
      assert 0 <= slot < |font.fontMap| && font.fontMap[slot] == text[k];
    }
  }
}
