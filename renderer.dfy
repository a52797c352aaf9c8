/** The one-shot renderer `svg_renderer_impl::render`
    (foo_svg_services/main.cpp, lines 77-97): parse, choose the axis to fit,
    rasterize, convert to straight-alpha BGRA. The engine's own calls are
    parameters: the result code its parser returned, the natural size it
    reports for the parsed tree, and the bitmap it leaves in the caller's
    buffer when drawing with a given fit onto that buffer's old pixels. */
module Renderer {
  import opened ResvgErrors
  import opened Pixels

  /** The natural size the engine reports for a parsed tree
      (`resvg_get_image_size`, main.cpp:88). */
  datatype Size = Size(width: real, height: real)

  /** A size the engine reports for a successfully parsed document. */
  predicate IsPositive(size: Size) {
    size.width > 0.0 && size.height > 0.0
  }

  /** `resvg_fit_to_type`: the two kinds the renderer uses. */
  datatype FitToType = FitToWidth | FitToHeight

  /** `resvg_fit_to`: scale the image so that the chosen dimension becomes `value`. */
  datatype FitTo = FitTo(kind: FitToType, value: real)

  /** The fit-axis decision: fit to the height exactly when the image is
      relatively narrower than the output (its aspect ratio is smaller), with
      the output height as target; otherwise fit to the width, with the output
      width as target. */
  function ChooseFit(size: Size, renderWidth: int, renderHeight: int): (fit: FitTo)
    requires IsPositive(size) && renderWidth > 0 && renderHeight > 0
    ensures fit.kind == FitToHeight <==> size.width * renderHeight as real < renderWidth as real * size.height
    ensures fit.kind == FitToHeight ==> fit.value == renderHeight as real
    ensures fit.kind == FitToWidth ==> fit.value == renderWidth as real
  {
    var fitToHeight := size.width / size.height < renderWidth as real / renderHeight as real;
    CrossMultiplied(size.width, size.height, renderWidth as real, renderHeight as real);
    FitTo(if fitToHeight then FitToHeight else FitToWidth, if fitToHeight then renderHeight as real else renderWidth as real)
  }

  /** Comparing two ratios of positive numbers is comparing the cross products. */
  lemma CrossMultiplied(a: real, b: real, c: real, d: real)
    requires b > 0.0 && d > 0.0
    ensures a / b < c / d <==> a * d < c * b
  {
    assert a / b * (b * d) == a * d;
    assert c / d * (b * d) == c * b;
  }

  /** The uniform scale factor a fit stands for: the target value over the
      image's extent along the fitted axis. */
  function FitScale(fit: FitTo, size: Size): real
    requires IsPositive(size)
  {
    match fit.kind
    case FitToWidth => fit.value / size.width
    case FitToHeight => fit.value / size.height
  }

  /** Best fit: the chosen scale is the largest at which the whole image fits
      the output, i.e. the smaller of the two axis ratios. */
  lemma ChosenFitIsBestFit(size: Size, renderWidth: int, renderHeight: int)
    requires IsPositive(size) && renderWidth > 0 && renderHeight > 0
    ensures var scale := FitScale(ChooseFit(size, renderWidth, renderHeight), size);
      && scale <= renderWidth as real / size.width
      && scale <= renderHeight as real / size.height
      && (scale == renderWidth as real / size.width || scale == renderHeight as real / size.height)
  {
    var w, h := renderWidth as real, renderHeight as real;
    CrossMultiplied(h, size.height, w, size.width);
    assert size.width * h == h * size.width;
  }

  /** The scaled image lies inside the output in both dimensions and fills it
      along at least one of them. */
  lemma ScaledImageFitsOutput(size: Size, renderWidth: int, renderHeight: int)
    requires IsPositive(size) && renderWidth > 0 && renderHeight > 0
    ensures var scale := FitScale(ChooseFit(size, renderWidth, renderHeight), size);
      && size.width * scale <= renderWidth as real
      && size.height * scale <= renderHeight as real
      && (size.width * scale == renderWidth as real || size.height * scale == renderHeight as real)
  {
    var scale := FitScale(ChooseFit(size, renderWidth, renderHeight), size);
    ChosenFitIsBestFit(size, renderWidth, renderHeight);
    ScaleBelowRatio(scale, renderWidth as real, size.width);
    ScaleBelowRatio(scale, renderHeight as real, size.height);
  }

  /** s <= t / x with x positive means x * s <= t, with equality exactly at s == t / x. */
  lemma ScaleBelowRatio(s: real, t: real, x: real)
    requires x > 0.0 && s <= t / x
    ensures x * s <= t
    ensures s == t / x ==> x * s == t
  {
    assert x * (t / x) == t;
  }

  /** `svg_renderer_impl::render`. A failed parse raises the exception of
      `check_resvg_result` before anything is drawn, so the buffer is left
      alone. Otherwise the engine draws onto the first width * height
      premultiplied RGBA pixels of the buffer for the chosen fit (what it
      leaves there may depend on what was there before), and those pixels are
      converted in place to straight BGRA; the rest of the buffer keeps its
      bytes. The output size must be positive, and the buffer must hold
      at least width * height * 4 bytes. */
  method Render(parseResult: ResvgCode, imageSize: Size, rasterize: (FitTo, seq<Byte>) -> seq<Byte>,
                renderWidth: int, renderHeight: int, outputBuffer: array<Byte>)
    returns (outcome: Outcome<ResvgException>)
    requires IsPositive(imageSize) && renderWidth > 0 && renderHeight > 0
    requires renderWidth * renderHeight * 4 <= outputBuffer.Length
    requires renderWidth * renderHeight * 4 <= 0x8000_0000
    requires forall canvas: seq<Byte> :: |canvas| == renderWidth * renderHeight * 4 ==>
      |rasterize(ChooseFit(imageSize, renderWidth, renderHeight), canvas)| == |canvas|
    modifies outputBuffer
    ensures outcome == CheckResvgResult(parseResult)
    ensures outcome.Fail? ==> outputBuffer[..] == old(outputBuffer[..])
    ensures outcome.Pass? ==>
      var n := renderWidth * renderHeight * 4;
      var bitmap := rasterize(ChooseFit(imageSize, renderWidth, renderHeight), old(outputBuffer[..n]));
      outputBuffer[..] == PrgbaToBgraSpec(bitmap + old(outputBuffer[n..]), renderWidth * renderHeight)
  {
    outcome := CheckResvgResult(parseResult);
    if outcome.Fail? {
      return;
    }
    var fit := ChooseFit(imageSize, renderWidth, renderHeight);
    var bitmap := rasterize(fit, outputBuffer[..renderWidth * renderHeight * 4]);
    ghost var rest := outputBuffer[|bitmap|..];
    forall i | 0 <= i < |bitmap| {
      outputBuffer[i] := bitmap[i];
    }
    assert outputBuffer[..] == bitmap + rest;
    PrgbaToBgra(outputBuffer, renderWidth, renderHeight);
  }
}
