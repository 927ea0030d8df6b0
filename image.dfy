/**
 * Image editing: the size computed on each move of a resize drag, the aspect-ratio link between
 * the width and height fields of the image dialog, and the mapping between the dialog's
 * alignment and the image's float, display and margin styles.
 */
module Image {
  import opened Wrappers
  import opened Strings

  // ---- Resize drag ----

  /** The eight resize handles, named by compass direction. */
  datatype Handle = N | NE | E | SE | S | SW | W | NW

  /** What the drag remembers when it starts. */
  datatype ResizeStart = ResizeStart(startX: real, startY: real, startWidth: real, startHeight: real, handle: Handle)

  function Max(a: real, b: real): real
  {
    if a >= b then a else b
  }

  function Abs(a: real): real
  {
    if a >= 0.0 then a else -a
  }

  /** The handles that move the right edge, the bottom edge, and those the aspect lock applies to. */
  predicate DrivesWidth(h: Handle) { h == SE || h == E || h == NE }
  predicate DrivesHeight(h: Handle) { h == SE || h == S || h == SW }
  predicate KeepsRatio(h: Handle) { h == SE || h == S || h == E }

  /**
   * The width and height after a move to (`clientX`, `clientY`): the driven dimensions follow the
   * pointer but not below 20 pixels; with the aspect lock on, the E, S and SE handles derive the
   * other dimension from the start ratio (SE from the axis that moved further).
   */
  function ResizeStep(d: ResizeStart, clientX: real, clientY: real, lock: bool): (size: (real, real))
    requires lock && KeepsRatio(d.handle) ==> d.startWidth > 0.0 && d.startHeight > 0.0
    ensures DrivesWidth(d.handle) && !(lock && KeepsRatio(d.handle)) ==> size.0 >= 20.0
    ensures DrivesHeight(d.handle) && !(lock && KeepsRatio(d.handle)) ==> size.1 >= 20.0
  {
    var dx, dy := clientX - d.startX, clientY - d.startY;
    var w := if DrivesWidth(d.handle) then Max(20.0, d.startWidth + dx) else d.startWidth;
    var h := if DrivesHeight(d.handle) then Max(20.0, d.startHeight + dy) else d.startHeight;
    if lock && KeepsRatio(d.handle) then
      var ratio := d.startWidth / d.startHeight;
      if d.handle == E then (w, w / ratio)
      else if d.handle == S then (h * ratio, h)
      else if Abs(dx) > Abs(dy) then (w, w / ratio)
      else (h * ratio, h)
    else (w, h)
  }

  /**
   * Without the aspect lock (or on a handle it does not apply to) each dimension is either
   * driven, following the pointer but held at 20 pixels at least, or keeps its start value; in
   * particular N, W and NW change nothing.
   */
  lemma ResizeStepFree(d: ResizeStart, clientX: real, clientY: real, lock: bool)
    requires !(lock && KeepsRatio(d.handle))
    ensures ResizeStep(d, clientX, clientY, lock).0
            == if DrivesWidth(d.handle) then Max(20.0, d.startWidth + clientX - d.startX) else d.startWidth
    ensures ResizeStep(d, clientX, clientY, lock).1
            == if DrivesHeight(d.handle) then Max(20.0, d.startHeight + clientY - d.startY) else d.startHeight
    ensures d.handle in {N, W, NW} ==> ResizeStep(d, clientX, clientY, lock) == (d.startWidth, d.startHeight)
  {
  }

  /** Under the lock, which dimension is derived from which. */
  lemma LockedShape(d: ResizeStart, clientX: real, clientY: real)
    requires KeepsRatio(d.handle) && d.startWidth > 0.0 && d.startHeight > 0.0
    ensures var size := ResizeStep(d, clientX, clientY, true);
      var dx, dy := clientX - d.startX, clientY - d.startY;
      if d.handle == E || (d.handle == SE && Abs(dx) > Abs(dy))
      then size.0 == Max(20.0, d.startWidth + dx) && size.1 == size.0 / (d.startWidth / d.startHeight)
      else size.1 == Max(20.0, d.startHeight + dy) && size.0 == size.1 * (d.startWidth / d.startHeight)
  {
  }

  /**
   * With the aspect lock on, the E, S and SE handles keep the start ratio of width to height,
   * and the dimension the pointer drives follows it but is held at 20 pixels at least.
   */
  lemma ResizeStepLocked(d: ResizeStart, clientX: real, clientY: real)
    requires KeepsRatio(d.handle) && d.startWidth > 0.0 && d.startHeight > 0.0
    ensures var size := ResizeStep(d, clientX, clientY, true);
      size.0 == size.1 * (d.startWidth / d.startHeight)
    ensures var size := ResizeStep(d, clientX, clientY, true);
      var dx, dy := clientX - d.startX, clientY - d.startY;
      if d.handle == E || (d.handle == SE && Abs(dx) > Abs(dy))
      then size.0 == Max(20.0, d.startWidth + dx)
      else size.1 == Max(20.0, d.startHeight + dy)
  {
    var size := ResizeStep(d, clientX, clientY, true);
    var dx, dy := clientX - d.startX, clientY - d.startY;
    LockedShape(d, clientX, clientY);
    if d.handle == E || (d.handle == SE && Abs(dx) > Abs(dy)) {
      DivMul(size.0, d.startWidth / d.startHeight);
    }
  }

  /** Dividing by a non-zero ratio and multiplying back restores the value. */
  lemma DivMul(x: real, ratio: real)
    requires ratio != 0.0
    ensures (x / ratio) * ratio == x
  {
  }

  /** The derived dimension is not held at 20 pixels: a wide image dragged narrow by E. */
  lemma DerivedSideNotFloored()
    ensures ResizeStep(ResizeStart(0.0, 0.0, 100.0, 10.0, E), -80.0, 0.0, true) == (20.0, 2.0)
  {
  }

  // ---- The image dialog ----

  datatype ImageProps = ImageProps(
    width: string, height: string, alignment: string,
    borderWidth: string, borderStyle: string, borderColor: string, borderRadius: string,
    margin: string, altText: string, lockAspectRatio: bool)

  /** One edit in the image dialog: the property and its new value. */
  datatype PropEdit =
    | SetWidth(w: string) | SetHeight(h: string) | SetAlignment(a: string)
    | SetBorderWidth(bw: string) | SetBorderStyle(bs: string) | SetBorderColor(bc: string)
    | SetBorderRadius(br: string) | SetMargin(m: string) | SetAltText(t: string) | SetLock(lock: bool)

  /** `Math.round`: the nearest integer, halves rounded up. */
  function Round(x: real): (n: int)
    ensures x - 0.5 < n as real <= x + 0.5
  {
    (x + 0.5).Floor
  }

  /** `parseInt(value) || 0`: a value that does not start with a number reads as 0. */
  function ParseIntOrZero(s: string): int
  {
    match ParseInt(s)
    case Some(n) => n
    case None => 0
  }

  /** A pixel length as the dialog writes it: `${n}px`. */
  function Px(n: nat): string
  {
    Decimal(n) + "px"
  }

  /** The props with one field replaced by the edit's value. */
  function Assign(prev: ImageProps, edit: PropEdit): ImageProps
  {
    match edit
    case SetWidth(v) => prev.(width := v)
    case SetHeight(v) => prev.(height := v)
    case SetAlignment(v) => prev.(alignment := v)
    case SetBorderWidth(v) => prev.(borderWidth := v)
    case SetBorderStyle(v) => prev.(borderStyle := v)
    case SetBorderColor(v) => prev.(borderColor := v)
    case SetBorderRadius(v) => prev.(borderRadius := v)
    case SetMargin(v) => prev.(margin := v)
    case SetAltText(v) => prev.(altText := v)
    case SetLock(v) => prev.(lockAspectRatio := v)
  }

  /**
   * `handleImagePropChange`: the edited field takes its value; with the lock on, a positive
   * width sets the height to the width divided by the image's ratio, rounded, in pixels (and a
   * positive height the width likewise).
   */
  function ChangeProp(prev: ImageProps, edit: PropEdit, aspectRatio: real): ImageProps
    requires prev.lockAspectRatio && (edit.SetWidth? || edit.SetHeight?) ==> aspectRatio > 0.0
  {
    var next := Assign(prev, edit);
    if edit.SetWidth? && prev.lockAspectRatio then
      var width := ParseIntOrZero(edit.w);
      if width > 0 then next.(height := LinkedHeight(width, aspectRatio)) else next
    else if edit.SetHeight? && prev.lockAspectRatio then
      var height := ParseIntOrZero(edit.h);
      if height > 0 then next.(width := LinkedWidth(height, aspectRatio)) else next
    else next
  }

  /** The height the lock derives from a positive width: `${Math.round(width / aspectRatio)}px`. */
  function LinkedHeight(width: int, aspectRatio: real): (h: string)
    requires width > 0 && aspectRatio > 0.0
  {
    PositiveQuotient(width, aspectRatio);
    Px(Round(width as real / aspectRatio))
  }

  /** The width the lock derives from a positive height: `${Math.round(height * aspectRatio)}px`. */
  function LinkedWidth(height: int, aspectRatio: real): (w: string)
    requires height > 0 && aspectRatio > 0.0
  {
    PositiveProduct(height, aspectRatio);
    Px(Round(height as real * aspectRatio))
  }

  /** Multiplying a positive height by a positive ratio. */
  lemma PositiveProduct(h: int, ratio: real)
    requires h > 0 && ratio > 0.0
    ensures h as real * ratio > 0.0
  {
  }

  /** Dividing a positive width by a positive ratio. */
  lemma PositiveQuotient(w: int, ratio: real)
    requires w > 0 && ratio > 0.0
    ensures w as real / ratio > 0.0
  {
  }

  /** The derived height reads back as the width over the ratio, to within half a pixel. */
  lemma LinkedHeightSpec(width: int, aspectRatio: real)
    requires width > 0 && aspectRatio > 0.0
    ensures exists h: nat :: LinkedHeight(width, aspectRatio) == Px(h) && ParseInt(Px(h)) == Some(h)
              && width as real / aspectRatio - 0.5 < h as real <= width as real / aspectRatio + 0.5
  {
    PositiveQuotient(width, aspectRatio);
    var h := Round(width as real / aspectRatio);
    ParseIntOfDecimal(h, "px");
    assert LinkedHeight(width, aspectRatio) == Px(h);
  }

  /** The derived width reads back as the height times the ratio, to within half a pixel. */
  lemma LinkedWidthSpec(height: int, aspectRatio: real)
    requires height > 0 && aspectRatio > 0.0
    ensures exists w: nat :: LinkedWidth(height, aspectRatio) == Px(w) && ParseInt(Px(w)) == Some(w)
              && height as real * aspectRatio - 0.5 < w as real <= height as real * aspectRatio + 0.5
  {
    PositiveProduct(height, aspectRatio);
    var w := Round(height as real * aspectRatio);
    ParseIntOfDecimal(w, "px");
    assert LinkedWidth(height, aspectRatio) == Px(w);
  }

  /**
   * With the lock on, a positive width in the dialog sets the width field and the derived
   * height, and changes nothing else; a positive height likewise sets the derived width. A
   * width or height that does not read as a positive number leaves the other one alone.
   */
  lemma ChangeSizeLocked(prev: ImageProps, v: string, aspectRatio: real)
    requires prev.lockAspectRatio && aspectRatio > 0.0
    ensures ParseIntOrZero(v) > 0 ==>
      ChangeProp(prev, SetWidth(v), aspectRatio)
        == prev.(width := v, height := LinkedHeight(ParseIntOrZero(v), aspectRatio))
    ensures ParseIntOrZero(v) > 0 ==>
      ChangeProp(prev, SetHeight(v), aspectRatio)
        == prev.(height := v, width := LinkedWidth(ParseIntOrZero(v), aspectRatio))
    ensures ParseIntOrZero(v) <= 0 ==>
      ChangeProp(prev, SetWidth(v), aspectRatio) == prev.(width := v) &&
      ChangeProp(prev, SetHeight(v), aspectRatio) == prev.(height := v)
  {
  }

  /** Without the lock, or for any other field, only the edited field changes. */
  lemma ChangePropUnlinked(prev: ImageProps, edit: PropEdit, aspectRatio: real)
    requires !prev.lockAspectRatio || !(edit.SetWidth? || edit.SetHeight?)
    ensures ChangeProp(prev, edit, aspectRatio) == Assign(prev, edit)
  {
  }

  // ---- Alignment ----

  /** The float, display and margin styles an alignment stands for. */
  datatype AlignStyle = AlignStyle(float: string, display: string, margin: string)

  /** `a || b` on strings: the first unless it is empty. */
  function OrElse(a: string, b: string): string
  {
    if a != "" then a else b
  }

  /** The alignment branch of `applyImageChanges`. */
  function AlignmentStyle(alignment: string, margin: string): (st: AlignStyle)
    ensures margin != "" ==> st.margin == margin
    ensures st.margin != ""
  {
    if alignment == "left" then AlignStyle("left", "", OrElse(margin, "0 10px 10px 0"))
    else if alignment == "right" then AlignStyle("right", "", OrElse(margin, "0 0 10px 10px"))
    else if alignment == "center" then AlignStyle("", "block", OrElse(margin, "10px auto"))
    else AlignStyle("", "", OrElse(margin, "10px 0"))
  }

  /** `getImageAlignment`: the alignment an image's styles show. */
  function AlignmentOf(st: AlignStyle): string
  {
    if st.float == "left" then "left"
    else if st.float == "right" then "right"
    else if st.display == "block" && st.margin == "0 auto" then "center"
    else ""
  }

  /**
   * Reading the alignment back from the styles it was applied as gives it back for left,
   * right and none; centre is read back only when the margin is exactly `0 auto`, and any
   * other value reads back as none.
   */
  lemma AlignmentRoundTrip(alignment: string, margin: string)
    ensures AlignmentOf(AlignmentStyle(alignment, margin))
            == if alignment == "left" || alignment == "right" then alignment
               else if alignment == "center" && margin == "0 auto" then "center"
               else ""
  {
    assert "10px auto" != "0 auto" by {
      assert "10px auto"[0] != "0 auto"[0];
    }
  }

  /** A size as the image's style holds it: a CSS string from the dialog, or pixels from a drag. */
  datatype Length = Css(text: string) | Pixels(px: real)

  /** The selected image element: the style fields the editor reads and writes, and its alt text. */
  class ImageElement {
    var width: Length
    var height: Length
    var borderWidth: string
    var borderStyle: string
    var borderColor: string
    var borderRadius: string
    var margin: string
    var float: string
    var display: string
    var alt: string

    constructor(width: Length, height: Length)
      ensures this.width == width && this.height == height
      ensures borderWidth == "" && borderStyle == "" && borderColor == "" && borderRadius == ""
      ensures margin == "" && float == "" && display == "" && alt == ""
    {
      this.width := width;
      this.height := height;
      borderWidth, borderStyle, borderColor, borderRadius := "", "", "", "";
      margin, float, display, alt := "", "", "", "";
    }

    /** `getImageAlignment` on this image. */
    function Alignment(): string
      reads this
    {
      AlignmentOf(AlignStyle(float, display, margin))
    }

    /** One move of the resize drag: the new size is written to the image's width and height. */
    method ResizeMove(d: ResizeStart, clientX: real, clientY: real, lock: bool)
      requires lock && KeepsRatio(d.handle) ==> d.startWidth > 0.0 && d.startHeight > 0.0
      modifies this
      ensures var size := ResizeStep(d, clientX, clientY, lock);
        width == Pixels(size.0) && height == Pixels(size.1)
      ensures borderWidth == old(borderWidth) && borderStyle == old(borderStyle)
      ensures borderColor == old(borderColor) && borderRadius == old(borderRadius)
      ensures margin == old(margin) && float == old(float) && display == old(display) && alt == old(alt)
    {
      var dx, dy := clientX - d.startX, clientY - d.startY;
      var newWidth, newHeight := d.startWidth, d.startHeight;
      if DrivesWidth(d.handle) {
        newWidth := Max(20.0, d.startWidth + dx);
      }
      if DrivesHeight(d.handle) {
        newHeight := Max(20.0, d.startHeight + dy);
      }
      if lock && KeepsRatio(d.handle) {
        var ratio := d.startWidth / d.startHeight;
        if d.handle == E {
          newHeight := newWidth / ratio;
        } else if d.handle == S {
          newWidth := newHeight * ratio;
        } else if Abs(dx) > Abs(dy) {
          newHeight := newWidth / ratio;
        } else {
          newWidth := newHeight * ratio;
        }
      }
      width := Pixels(newWidth);
      height := Pixels(newHeight);
    }

    /**
     * `applyImageChanges`: the dialog's sizes, border, margin and alt text are written to the
     * image, then the alignment's float, display and margin.
     */
    method ApplyImageChanges(p: ImageProps)
      modifies this
      ensures width == Css(p.width) && height == Css(p.height)
      ensures borderWidth == p.borderWidth && borderStyle == p.borderStyle
      ensures borderColor == p.borderColor && borderRadius == p.borderRadius
      ensures alt == p.altText
      ensures AlignStyle(float, display, margin) == AlignmentStyle(p.alignment, p.margin)
      ensures Alignment() == AlignmentOf(AlignmentStyle(p.alignment, p.margin))
    {
      width := Css(p.width);
      height := Css(p.height);
      borderWidth := p.borderWidth;
      borderStyle := p.borderStyle;
      borderColor := p.borderColor;
      borderRadius := p.borderRadius;
      margin := p.margin;
      alt := p.altText;
      if p.alignment == "left" {
        float, display, margin := "left", "", OrElse(p.margin, "0 10px 10px 0");
      } else if p.alignment == "right" {
        float, display, margin := "right", "", OrElse(p.margin, "0 0 10px 10px");
      } else if p.alignment == "center" {
        float, display, margin := "", "block", OrElse(p.margin, "10px auto");
      } else {
        float, display, margin := "", "", OrElse(p.margin, "10px 0");
      }
    }
  }
}
