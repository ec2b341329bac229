# Isolated-pixel removal for a binary damage mask

The post-processing chain of this damage-assessment workflow turns texture
rasters into a binary damage mask and then removes speckle. The speckle filter,
`2-Post-Processing/3-Filtering/cleaning.py`, does the following:

- it reads a single-band raster of integers;
- it labels the connected components of the pixels equal to 1, using a 3x3
  structuring element of ones (8-connectivity, corners included);
- it overwrites every one-pixel component with 0, in place;
- it writes the result to a new file, `cleaned_raster.tif`, with the input
  file's profile.

This project models that filter and proves what it does.

- `connectivity.dfy` (module `Connectivity`): the raster as a `seq<seq<int>>`,
  pixel positions, the structuring element, and the foreground mask
  (`raster == 1`; cells outside the raster are background). Two definitions of
  "this pixel is a component on its own" are given and proved equivalent:
  - `Isolated`: a cheap, compiled eight-neighbour test;
  - `SingletonComponent`: a ghost definition through paths of adjacent
    foreground pixels, which is what the connected-component labelling
    computes.
- `cleaning.dfy` (module `Cleaning`):
  - `Cleaned` is the specification function;
  - `Clean` is the in-place method over an `array2<int>`. It snapshots the
    raster first, because the labels are computed before the removal loop.
    It then zeroes, in raster-scan order, the pixels isolated in that snapshot;
  - lemmas prove the filter's properties: order independence, idempotence,
    and the exact drop in the count of value-1 pixels.

The comment above the labelling speaks of "components of value 2". The code
labels `raster == 1`, and the model follows the code: pixels of any value other
than 1 are background and are never changed (`OtherValuesAreBackground`).

## Model

| member | source | states |
|---|---|---|
| Connectivity.NeighbourhoodIsStructure | 2-Post-Processing/3-Filtering/cleaning.py:12-16 | A pixel has a foreground pixel among its eight neighbours exactly when some cell adjacent to it under the all-ones 3x3 structuring element is foreground (both directions) |
| Connectivity.IsolatedIffSingletonComponent | 2-Post-Processing/3-Filtering/cleaning.py:12-20 | A pixel is a value-1 pixel with no value-1 8-neighbour exactly when its connected component in the `raster == 1` mask is the pixel itself, i.e. a component of size one (both directions) |
| Connectivity.AdjacentSymmetric | 2-Post-Processing/3-Filtering/cleaning.py:12-14 | Adjacency under the symmetric structuring element is symmetric |
| Cleaning.Cleaned | 2-Post-Processing/3-Filtering/cleaning.py:16-23 | The cleaned raster keeps its dimensions; a pixel whose value is not 1 is unchanged; every pixel that changes becomes 0; a value-1 pixel becomes 0 exactly when none of its in-bounds 8-neighbours is 1, and stays 1 exactly when one of them is, diagonal neighbours included |
| Cleaning.Clean | 2-Post-Processing/3-Filtering/cleaning.py:16-21 | Rewriting the array in place leaves it equal to the cleaned version of its original contents, every decision taken against the raster as it was before the loop |
| Cleaning.NeighbourSurvives | 2-Post-Processing/3-Filtering/cleaning.py:19-21 | A value-1 neighbour of a value-1 pixel is never isolated, so it is still 1 however many isolated pixels have already been removed |
| Cleaning.IsolationUnchanged | 2-Post-Processing/3-Filtering/cleaning.py:16-21 | Part-way through the removal, a pixel is isolated in the current raster exactly when it is still 1 and was isolated in the original |
| Cleaning.VisitStep | 2-Post-Processing/3-Filtering/cleaning.py:19-21 | Visiting one pixel of a partly cleaned raster gives that pixel its final value and leaves every other pixel alone |
| Cleaning.SweepSpec | 2-Post-Processing/3-Filtering/cleaning.py:19-21 | After visiting a list of pixels, each visited pixel holds its final cleaned value and each other pixel is as before |
| Cleaning.SweepAnyOrder | 2-Post-Processing/3-Filtering/cleaning.py:16-21 | Visiting every pixel in any order, even when each decision is taken against the current raster, gives exactly the cleaned raster |
| Cleaning.SweepOrdersAgree | 2-Post-Processing/3-Filtering/cleaning.py:19-21 | Any two visiting orders that cover the raster give the same result |
| Cleaning.NoIsolatedLeft | 2-Post-Processing/3-Filtering/cleaning.py:19-21 | The cleaned raster contains no isolated value-1 pixel |
| Cleaning.CleanedIdempotent | 2-Post-Processing/3-Filtering/cleaning.py:19-21 | Cleaning a cleaned raster changes nothing |
| Cleaning.RowOnesDrop | 2-Post-Processing/3-Filtering/cleaning.py:19-21 | In every row prefix, the value-1 pixels left plus the isolated pixels removed equal the value-1 pixels before |
| Cleaning.RowsOnesDrop | 2-Post-Processing/3-Filtering/cleaning.py:19-21 | The same count identity holds over the first m rows of the raster |
| Cleaning.OnesDropByIsolated | 2-Post-Processing/3-Filtering/cleaning.py:19-21 | The number of value-1 pixels drops by exactly the number of isolated pixels, and so never increases |
| Cleaning.DiagonalPairKept | 2-Post-Processing/3-Filtering/cleaning.py:12-14 | Two value-1 pixels that touch only at a corner are connected (a two-cell path joins them, so they form one component) and both are kept |
| Cleaning.LonePixelRemoved | 2-Post-Processing/3-Filtering/cleaning.py:19-21 | A single value-1 pixel surrounded by 0 is removed |
| Cleaning.OtherValuesAreBackground | 2-Post-Processing/3-Filtering/cleaning.py:11-16 | A pixel of value 2 is background: it does not keep its value-1 neighbour alive and is itself left unchanged |

## Left out

- Reading and writing the GeoTIFF files and their profile (`rasterio.open`, `read`, `write`): the raster is an in-memory array, and the profile is passed through unchanged.
- The internals of `scipy.ndimage.label`: the model gives only its effect, the components under the all-ones 3x3 structure. `Connectivity.SingletonComponent` models the size-one case, and the method decides it with the equivalent local test.
- Clean: the source counts each component's pixels via the label array. The method instead checks the eight neighbours of each pixel against the snapshot. `Connectivity.IsolatedIffSingletonComponent` proves that this gives the same decision.
- The pixel type's width: pixels are unbounded integers. The only values written are 0 and the values already present, so no overflow can arise.
- Normalisation and thresholding (`normalisation.py`, `Thresholding.py`): these are calls into a GIS library (clip, raster properties, reclassify) on floating-point rasters, with directory and workspace setup. The other scripts (GLCM, random gridding, accuracy assessment, damage assessment) are not part of this model.
- Progress messages and printing.
