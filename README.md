# imgcrop: crop-to-fit geometry

imgcrop is a command-line tool that batch-crops images to a fixed target
shape (`WIDTHxHEIGHT`). It resizes each image uniformly so that it just covers
the target. Then it cuts the centred target-sized box out of the result. This
project models the geometry of that step: the function `crop` in `imgcrop.py`.
Given the source size `(w, h)` and the target shape `(tw, th)`, all positive,
it computes:

- the limiting axis (`dim_compare`): the height when `w/h > tw/th`, otherwise
  the width;
- the scale factor, target over source on that axis;
- the resized size, each source dimension times the scale, truncated;
- the crop box `(hpad, vpad, hpad + tw, vpad + th)`, where each padding is
  half the surplus on that axis.

Files:

- `imgcrop.dfy`, module `ImgCrop`: the datatypes `Axis`, `Dims`, `Box` and
  `Geometry`; the functions `LimitingAxis`, `ScaleFactor`, `ResizedDims`,
  `Padding`, `CropBox` and `Crop`; and the lemmas about them.
- `arith.dfy`, module `Arith`: facts about integer division and exact real
  quotients that the lemmas use.

The ratios and the scale factor are exact `real`s, as in the source's
arithmetic without rounding. `int(scale_factor * x)` of a positive product is
`.Floor`. `ResizedDims` proves that this equals the integer formula
`(T * x) / S`, where `S` and `T` are the source and target sizes on the
limiting axis. The source is Python 2 code (it uses `itertools.imap`), so
`(a - b) / 2` on integers is floor division. Dafny's `/` by 2 also floors.
Floor and truncation toward zero agree for the padding, because
`ResizedCoversTarget` proves the surplus non-negative.

## Model

| member | source | states |
|---|---|---|
| ImgCrop.LimitingAxis | imgcrop.py:35-37 | The height is the limiting axis exactly when the source ratio is strictly greater than the target ratio, i.e. `w*th > tw*h`. Equal ratios take the width branch. |
| ImgCrop.ScaleFactor | imgcrop.py:38 | The scale is positive and equals `max(tw/w, th/h)`. |
| ImgCrop.ResizedDims | imgcrop.py:38-40 | Truncating the one scale times each source dimension gives `(T*w)/S` and `(T*h)/S` in integer arithmetic, with `S`, `T` the source and target sizes on the limiting axis. |
| ImgCrop.Padding | imgcrop.py:42-43 | The padding is half the surplus rounded down: `2*p <= resized - target <= 2*p + 1`. It is non-negative when the resized size reaches the target. |
| ImgCrop.CropBox | imgcrop.py:44-47 | The box spans exactly the target width and height. On each axis the margin after it is the margin before it or one more pixel. |
| ImgCrop.Crop | imgcrop.py:40-47 | The crop box has exactly the target width and height, and it lies inside the resized image (`0 <= left`, `right <= rw`, `0 <= top`, `bottom <= rh`). |
| ImgCrop.ResizedCoversTarget | imgcrop.py:37-40 | On the limiting axis the resized size equals the target size. On both axes it is at least the target size, so both paddings are non-negative. |
| ImgCrop.NoPaddingOnLimitingAxis | imgcrop.py:37-47 | On the limiting axis the padding is 0 and the box spans the whole resized dimension. |
| ImgCrop.CropCentred | imgcrop.py:42-47 | On each axis the margin after the box is the margin before it or one pixel more: `left <= rw - right <= left + 1`, and likewise for top and bottom. |
| ImgCrop.ScaleIsSmallestCover | imgcrop.py:31-38 | A uniform scale `k` makes both scaled dimensions reach the target exactly when `k` is at least the chosen scale. So the chosen scale is the smallest one that covers the target. |
| ImgCrop.ProportionsKept | imgcrop.py:38-40 | Because one scale is used for both axes, the resized image keeps the source proportions up to truncation: `-h < rw*h - rh*w < w`. |
| ImgCrop.EqualRatiosNoCrop | imgcrop.py:34-47 | When `w*th == tw*h`, the image is resized to exactly the target and the box is `(0, 0, tw, th)`. The scale is `tw/w`. |
| ImgCrop.WideSourceExample | imgcrop.py:34-47 | Source 200x100 and target 10x10 give scale 0.1, resized size 20x10 and box (5, 0, 15, 10). |
| ImgCrop.TallSourceExample | imgcrop.py:34-47 | Source 100x200 and target 10x10 give scale 0.1, resized size 10x20 and box (0, 5, 10, 15). |

## Left out

- Pixel work: `image.resize`, `image.crop` and `cropped_image.load()` are calls into the imaging library (imgcrop.py:40, 48-50). The model covers only the sizes and the box that these calls receive.
- Floating point: the source divides and multiplies in floating point, and the model uses exact rationals. The real code occasionally truncates a product such as 9.999... to 9. An axis can then come out one pixel short of the target, and the box runs past the resized image. The model does not capture this.
- Crop: the model requires all four sizes to be positive, which the source does not check. A zero height raises a division error at imgcrop.py:35-36, and a zero source width raises one at imgcrop.py:38. Other non-positive shapes give a degenerate box or fail inside the imaging library.
- `cropper` (imgcrop.py:53-82): the batch loop is filesystem and imaging-library I/O. That covers the directory check and creation, opening, the existence check, saving and printed messages. Its `elif` branch at line 60 is unreachable, because `makedirs` raises first.
- `main` and `get_optionparser` (imgcrop.py:16-24, 84-92): these cover command-line parsing and glob expansion. The shape is parsed with `map(int, ...)` and is not validated, so there is no property to state.
