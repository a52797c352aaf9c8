# SVG services: pixel conversion, fit choice and engine errors

This project models the logic of the foobar2000 "SVG services" component that
lives in `foo_svg_services/main.cpp`. The component wraps the resvg engine and
has four parts, each modelled here:

- **Engine errors** (`ResvgErrors`, resvg_errors.dfy). The table
  `resvg_error_messages` maps engine result codes to messages.
  `exception_resvg` holds a message and a code. `check_resvg_result` raises
  that exception for any code other than `RESVG_OK`. The seven named `RESVG_*`
  constants are modelled as separate constructors, because their numeric
  values are not visible. `Unnamed(raw)` stands for every other 32-bit code.
- **Un-premultiplying** (`Pixels`, pixels.dfy). `remove_premultiplied_alpha`
  is computed exactly over integers: `a == 0 ? v : min(255, (2*255*v + a) / (2*a))`.
  This is `v*255/a` rounded half up, then clamped to 255. The source works in
  `float` and uses `std::lround`, and it gives the same result:
  - `v*255 <= 65025` is exact in `float`;
  - a quotient that is exactly halfway is exact in `float` too;
  - any other quotient lies at least `1/(2a) >= 1/510` from a halfway point,
    which is far more than the rounding error of one `float` division.
- **In-place conversion** (`Pixels.PrgbaToBgra`). `prgba_to_bgra` is an
  imperative method on an `array<Byte>` with the source's nested row and
  column loops. It is proved equal to `PrgbaToBgraSpec`, a reference
  definition that converts the buffer one pixel at a time. The lemmas state
  what each byte of the result is.
- **Fit axis and render glue** (`Renderer`, renderer.dfy). `ChooseFit` is the
  fit-to-height or fit-to-width decision inside `svg_renderer_impl::render`.
  `Render` is that method, with the engine's calls passed in as parameters:
  - the result code of the parse;
  - the natural size the engine reports;
  - the premultiplied bitmap it leaves in the caller's buffer when drawing
    with a given fit onto that buffer's previous contents.

## Model

| member | source | states |
|---|---|---|
| `ResvgErrors.NewResvgException` | foo_svg_services/main.cpp:21-40 | the exception keeps the code verbatim; its message is the table's entry for the six known error codes and "Unknown resvg error" for any other code; the message is never empty |
| `ResvgErrors.CheckResvgResult` | foo_svg_services/main.cpp:42-46 | fails if and only if the code is not `RESVG_OK`; the failure is the exception built from that same code |
| `ResvgErrors.MessageIdentifiesKnownCode` | foo_svg_services/main.cpp:21-32 | a failure has the generic message exactly when its code is not in the table; two known codes never share a message |
| `ResvgErrors.KnownMessages` | foo_svg_services/main.cpp:21-26 | the outcome for each named error constant, with the table's exact text, and for every unnamed code |
| `Pixels.RemovePremultipliedAlpha` | foo_svg_services/main.cpp:48-55 | with alpha 0 or alpha 255 the channel is returned unchanged; what the result means for other alphas (value*255/alpha rounded half up, clamped to 255) is stated by `UnpremultiplyRounds` and `UnpremultiplyIsNearest` |
| `Pixels.TransparentChannelUnchanged` | foo_svg_services/main.cpp:50-51 | with alpha 0 the value is returned unchanged |
| `Pixels.UnpremultiplyRounds` | foo_svg_services/main.cpp:53-54 | for alpha > 0, below the clamp the result is within half a unit of value*255/alpha (ties round up); at the clamp the quotient is at least 254.5 |
| `Pixels.UnpremultiplyIsNearest` | foo_svg_services/main.cpp:53-54 | any integer within half a unit of value*255/alpha, clamped to 255, equals the result, so the result is exactly value*255/alpha rounded half up and clamped |
| `Pixels.OpaqueChannelUnchanged` | foo_svg_services/main.cpp:53-54 | with alpha 255 the value is returned unchanged |
| `Pixels.ZeroChannelUnchanged` | foo_svg_services/main.cpp:48-54 | a zero channel stays zero for every alpha |
| `Pixels.OverflowingChannelSaturates` | foo_svg_services/main.cpp:53-54 | a channel larger than its alpha (not validly premultiplied) gives 255, the clamp |
| `Pixels.PremultiplyRoundTrip` | foo_svg_services/main.cpp:48-55 | for a valid premultiplied channel (0 < alpha, value <= alpha), premultiplying the result again (rounded half up) gives back the value exactly |
| `Pixels.PixelToBgra` | foo_svg_services/main.cpp:65-72 | the loop body on one pixel: four bytes out, alpha kept in slot 3, and for alpha 0 or 255 just the R/B swap `[b, g, r, a]` |
| `Pixels.PrgbaToBgraSpec` | foo_svg_services/main.cpp:57-75 | the conversion keeps the buffer's length |
| `Pixels.SpecPixelAt` | foo_svg_services/main.cpp:60-72 | byte k of converted pixel p depends only on the four input bytes of pixel p |
| `Pixels.ChannelPlacement` | foo_svg_services/main.cpp:65-72 | byte 0 of each pixel is unpremul(old byte 2, old byte 3), byte 1 is unpremul(old byte 1, old byte 3), byte 2 is unpremul(old byte 0, old byte 3), and byte 3 (alpha) is unchanged |
| `Pixels.TailUnchanged` | foo_svg_services/main.cpp:57-63 | every byte at or beyond width*height*4 keeps its value |
| `Pixels.TransparentPixelSwaps` | foo_svg_services/main.cpp:65-72 | a pixel with alpha 0 becomes its R/B swap, with G and A unchanged |
| `Pixels.OpaquePixelSwaps` | foo_svg_services/main.cpp:65-72 | a pixel with alpha 255 also becomes its plain R/B swap |
| `Pixels.ConvertOnePixel` | foo_svg_services/main.cpp:65-72 | reading all four bytes of the next pixel first, then writing slots 0-2, extends the converted prefix by one pixel and leaves later bytes untouched; this is the loop's invariant step |
| `Pixels.PrgbaToBgra` | foo_svg_services/main.cpp:57-75 | the in-place nested loops leave the buffer equal to `PrgbaToBgraSpec` of its old contents, for width*height pixels |
| `Renderer.ChooseFit` | foo_svg_services/main.cpp:88-92 | fits to height exactly when src_w/src_h < render_w/render_h, stated by cross-multiplication, with target render_height; otherwise fits to width, with target render_width |
| `Renderer.ChosenFitIsBestFit` | foo_svg_services/main.cpp:89-92 | the scale the chosen fit stands for is the smaller of render_w/src_w and render_h/src_h |
| `Renderer.ScaledImageFitsOutput` | foo_svg_services/main.cpp:89-92 | at that scale the image fits inside the output in both dimensions and fills it along at least one |
| `Renderer.Render` | foo_svg_services/main.cpp:78-97 | the outcome is `check_resvg_result` of the parse code; on failure the buffer is unchanged; on success the buffer is the straight-BGRA conversion of what the engine drew, for the chosen fit, onto the buffer's old first width*height*4 bytes, followed by the buffer's old remaining bytes |

## Left out

- Engine calls: `resvg_options_create` and `resvg_options_destroy`, `resvg_parse_tree_from_data`, `resvg_get_image_size` and `resvg_render` (foo_svg_services/main.cpp:81-95) are foreign code whose behaviour is not visible. `Render` takes their results as parameters instead. There is no model of engine handles. So the `gsl::finally` guard, which releases the option set on every exit path, is not modelled. Neither is the fact that `render` never releases the parsed tree.
- `Renderer.FitScale`: states the resvg meaning of a fit (the target value divided by the image's extent along that axis). This is the engine's documented behaviour, not code in this repository.
- `ChooseFit`: compares the two aspect ratios exactly over reals. The source divides and compares in `float`. When two ratios are closer than `float` precision, the two can choose different axes. The fit value is `render_height` or `render_width` taken as a real number. The source converts to `float`, which is exact only up to 2^24.
- `Render`: requires a positive output size and a positive image size. With a zero height the source divides by zero in `float`, and it has no guard. A zero width with a positive height is excluded too, although the source handles it without dividing by zero: the ratio is 0, so it fits to width with target 0. The source also ignores `output_buffer_size`. The model instead requires the buffer to hold at least width*height*4 bytes, as the doc comment at api/api.h:55-56 demands.
- `PrgbaToBgra`: requires width*height*4 <= 2^31. The source computes byte offsets in `int`, and a larger buffer would overflow them (undefined behaviour).
- Numeric values of the `RESVG_*` constants are not modelled. `Unnamed(raw)` stands for any code other than the seven named constants.
- api/api.h: the `PixelFormat`, `ScalingMode` and `Position` enums, `Rect`, the `svg_document` and `svg_services` interfaces, and the GUIDs are declarations without any implementation in these files. None of them is modelled. `Renderer.Size` stands for the size the engine reports from `resvg_get_image_size`, not for the `Size` of api/api.h. Component registration and the version declaration (foo_svg_services/main.cpp:19, 101) are host plumbing.
- Scaling modes (None, Fit, Zoom, Stretch), centred translation, PRGBA/PBGRA output and the lazily initialised shared font option set do not appear in this revision of main.cpp, so they are not modelled.
- build-resvg.py is build plumbing: it runs `cargo` and searches the filesystem.
- `PremultiplyRoundTrip`: for value <= alpha the round trip is exact. For value > alpha the channel is not validly premultiplied; the result saturates at 255 (`OverflowingChannelSaturates`), so no round trip is claimed.
