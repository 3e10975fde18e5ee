/**
 * Letterboxing one image onto a PDF page: scale to the page width, fall back
 * to the page height when that would overflow, and centre the result. The
 * arithmetic is exact (`real`); the floating-point rounding of the original
 * is not modelled.
 */
module Layout {

  /** Where `addImage` draws: top-left corner and rendered size, in page units. */
  datatype Placement = Placement(x: real, y: real, width: real, height: real)

  /**
   * The placement `createPDF` computes for an `imgW` x `imgH` image on a
   * `pageW` x `pageH` page. The image fits the page, keeps its aspect ratio,
   * touches two opposite edges of the page, and is centred on both axes.
   */
  function Place(imgW: real, imgH: real, pageW: real, pageH: real): (p: Placement)
    requires imgW > 0.0 && imgH > 0.0 && pageW > 0.0 && pageH > 0.0
    ensures 0.0 < p.width <= pageW && 0.0 < p.height <= pageH
    ensures p.width == pageW || p.height == pageH
    ensures p.width * imgH == p.height * imgW
    ensures p.x >= 0.0 && p.y >= 0.0
    ensures p.x + p.width + p.x == pageW && p.y + p.height + p.y == pageH
  {
    var byWidth := (imgH * pageW) / imgW;
    assert byWidth * imgW == imgH * pageW;
    if byWidth > pageH then
      var w := (imgW * pageH) / imgH;
      assert w * imgH == imgW * pageH;
      assert w < pageW by {
        assert byWidth * imgW > pageH * imgW;
        assert imgH * pageW > pageH * imgW;
        assert w * imgH < pageW * imgH;
      }
      Placement((pageW - w) / 2.0, 0.0, w, pageH)
    else
      assert byWidth > 0.0 by {
        assert byWidth * imgW > 0.0;
      }
      Placement(0.0, (pageH - byWidth) / 2.0, pageW, byWidth)
  }

  function Min(a: real, b: real): real {
    if a <= b then a else b
  }

  /**
   * The placement is the uniform scale `min(pageW / imgW, pageH / imgH)`
   * applied to both sides of the image.
   */
  lemma PlaceIsUniformScale(imgW: real, imgH: real, pageW: real, pageH: real)
    requires imgW > 0.0 && imgH > 0.0 && pageW > 0.0 && pageH > 0.0
    ensures var p := Place(imgW, imgH, pageW, pageH);
      var scale := Min(pageW / imgW, pageH / imgH);
      p.width == imgW * scale && p.height == imgH * scale
  {
    var p := Place(imgW, imgH, pageW, pageH);
    var sw, sh := pageW / imgW, pageH / imgH;
    assert sw * imgW == pageW;
    assert sh * imgH == pageH;
    if (imgH * pageW) / imgW > pageH {
      assert imgH * sw > imgH * sh;
      assert sh < sw;
      assert p.width * imgH == imgW * sh * imgH;
    } else {
      assert imgH * sw <= imgH * sh;
      assert sw <= sh;
      assert p.height * imgW == imgH * sw * imgW;
    }
  }

  /** No larger uniform scale of the image would still fit the page. */
  lemma PlaceIsLargestFit(imgW: real, imgH: real, pageW: real, pageH: real, k: real)
    requires imgW > 0.0 && imgH > 0.0 && pageW > 0.0 && pageH > 0.0
    requires k > 0.0 && imgW * k <= pageW && imgH * k <= pageH
    ensures var p := Place(imgW, imgH, pageW, pageH);
      imgW * k <= p.width && imgH * k <= p.height
  {
    var p := Place(imgW, imgH, pageW, pageH);
    PlaceIsUniformScale(imgW, imgH, pageW, pageH);
    var scale := Min(pageW / imgW, pageH / imgH);
    assert k * imgW <= (pageW / imgW) * imgW;
    assert k <= pageW / imgW;
    assert k * imgH <= (pageH / imgH) * imgH;
    assert k <= pageH / imgH;
    assert k <= scale;
    assert imgW * k <= imgW * scale;
    assert imgH * k <= imgH * scale;
  }

  /**
   * The three images of a worked example on a 595 x 842 page: a tall one
   * fills the height, a wide one and a square one fill the width.
   */
  lemma PlaceExamples()
    ensures Place(100.0, 200.0, 595.0, 842.0) == Placement(87.0, 0.0, 421.0, 842.0)
    ensures Place(400.0, 100.0, 595.0, 842.0) == Placement(0.0, 346.625, 595.0, 148.75)
    ensures Place(300.0, 300.0, 595.0, 842.0) == Placement(0.0, 123.5, 595.0, 595.0)
  {
  }
}
