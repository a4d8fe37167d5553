# Synthetic research-table dataset generator, modelled in Dafny

The generator draws fake Thaumcraft research tables and writes object-detection
annotations for them in the COCO format. This project models its bookkeeping:

- **The hexagonal field** (`hex_grid.dfy`). The cells of a field of radius R come
  in the order the generator creates them. Each cell has a pixel box.
- **The aspect catalogue** (`categories.dfy`). This is the registry of aspect
  names and dataset categories, filled from the recipe configurations.
- **Scene population** (`scene.dfy`). Decoys go on random cells. Then distinct
  aspects go on cells that are still free.
- **Rendering and annotation** (`coco.dfy`). This covers the ordered layers
  pasted for each cell, the annotation records, and tincturem's hue counter.
- **The run** (`dataset.dfy`, `file_names.dfy`). This is the `Generator` class,
  holding the run-wide annotation list, the image list and the hue counter. It
  also covers the image records and their file names.
- **The in-place channel loops** (`channels.dfy`) used on the loaded sprites.
- **`getImagesDiffPercent`** (`image_diff.dfy`) of `src/utils.py`.

Every random draw of the script is a value the caller supplies:

- A `random.choice` over a list of length n is a natural number taken modulo n.
  This way every element can be drawn, and an empty list is an error result,
  not a precondition.
- `random.random() < p` is a boolean.
- `random.randint(R, 3R)` is the length of a draw list. Only the lemmas that need
  the bound ask for it.

Configurations, capture dates, the background size and the column pitch
`15.5 * cos(pi / 6)` are parameters too.

Points where the model states the code's behaviour rather than a reading
of its comments or of the COCO convention:

- **Annotations per image.** A scene does not get one annotation per cell. The
  code annotates only free cells and cells whose aspect id is positive, so
  decoys get none. `Dataset.SceneAnnotationCount` states the count: free cells
  plus placed aspects.
- **Missing catalogue file.** The code calls `.items()` on the `None` that
  `readJSONConfig` returns for a missing file, and the script stops there.
  `Categories.Registry.Load` returns false in that case.
- **No free cell left.** The aspect pass does not skip a draw when no cell is
  free. `random.choice` on the empty `availablePoints` raises IndexError, and
  the model returns an error result (`Scene.AspectPassFails`). The same holds
  when `aspectsLeft` is empty.

Integers are unbounded, as Python's are. `int()` is modelled as truncation toward
zero (`Numeric.Trunc`). Division in `getImagesDiffPercent` is exact real
division.

## Model

| member | source | states |
|---|---|---|
| Numeric.Trunc | scripts_other/fake_researches_generator/main_fake_researches_generator.py:97-99 | `int()` of a real: the largest integer not above it for non-negative values, the smallest not below it for negative ones |
| HexGrid.CellsCount | scripts_other/fake_researches_generator/main_fake_researches_generator.py:264-267 | the field of radius R has 3R^2 + 3R + 1 cells |
| HexGrid.CellsFacts | scripts_other/fake_researches_generator/main_fake_researches_generator.py:264-267 | no cell is listed twice; a cell is listed iff its column is in [-R, R] and its row in that column's range; every column is in [-R, R] |
| HexGrid.ColumnsFromLength | scripts_other/fake_researches_generator/main_fake_researches_generator.py:265-266 | the columns x..R together hold the closed-form number of cells (twice the count is TwiceCountFrom) |
| HexGrid.ColumnsFromMembers | scripts_other/fake_researches_generator/main_fake_researches_generator.py:265-267 | the columns x..R hold exactly the field cells with column at least x |
| HexGrid.ColumnsFromOrdered | scripts_other/fake_researches_generator/main_fake_researches_generator.py:265-267 | cells are inserted column by column, row by row upwards (strictly ordered, so distinct) |
| HexGrid.Cells | scripts_other/fake_researches_generator/main_fake_researches_generator.py:264-267 | the field's cells in insertion order (no contract of its own): CellsCount, CellsFacts and ColumnsFromOrdered state their number, membership and order |
| HexGrid.CellBox | scripts_other/fake_researches_generator/main_fake_researches_generator.py:94-99 | every cell's box has width = height = int(15.5 * quality), whatever the cell |
| HexGrid.BoxesDistinct | scripts_other/fake_researches_generator/main_fake_researches_generator.py:94-99 | when both scaled pitches are at least 2 px, a later column's box lies further right, and within a column a higher row's box lies further down, so different cells get different boxes |
| Categories.AspectsOf | scripts_other/fake_researches_generator/main_fake_researches_generator.py:194-207 | the aspect list after offering names (no contract of its own): CatalogueShape states that aspect k is the k-th distinct name with id k + 1, none twice |
| Categories.FirstSeen | scripts_other/fake_researches_generator/main_fake_researches_generator.py:194-207 | the registered names are exactly the offered names, each once |
| Categories.CatalogueShape | scripts_other/fake_researches_generator/main_fake_researches_generator.py:183-207 | free_hex is category 0, category k has id k, category k + 1 is aspect k with id k + 1 > 0, no aspect twice, and a name is registered iff it was offered |
| Categories.OfferKnown | scripts_other/fake_researches_generator/main_fake_researches_generator.py:196-198 | offering a name already registered changes neither list |
| Categories.OfferNew | scripts_other/fake_researches_generator/main_fake_researches_generator.py:200-207 | offering a new name appends one aspect and one category with id len(allAspects) + 1 |
| Categories.Registry.constructor | scripts_other/fake_researches_generator/main_fake_researches_generator.py:183-192 | the lists start empty except for the free_hex category |
| Categories.Registry.Add | scripts_other/fake_researches_generator/main_fake_researches_generator.py:194-207 | the search loop: a present name leaves both lists unchanged, a new one is appended to both with the next id; the registry invariant is kept |
| Categories.Registry.AddAll | scripts_other/fake_researches_generator/main_fake_researches_generator.py:211-213 | offers the names of one recipe table in order |
| Categories.Registry.AddVersions | scripts_other/fake_researches_generator/main_fake_researches_generator.py:210-214 | offers every name of every recipe version, in file order; the registry invariant is kept |
| Categories.Registry.AddAddons | scripts_other/fake_researches_generator/main_fake_researches_generator.py:217-221 | offers the names of the enabled addon sections, in file order, and skips the others; the registry invariant is kept |
| Categories.Registry.Load | scripts_other/fake_researches_generator/main_fake_researches_generator.py:209-221 | offers the original recipes (only when "original" is enabled) and then each enabled addon's names; fails exactly when a configuration it reads is missing |
| Categories.CatalogueMembers | scripts_other/fake_researches_generator/main_fake_researches_generator.py:209-221 | a name is offered iff it is in the original recipes with "original" enabled, or in an enabled addon's section; disabled addons contribute nothing |
| Categories.AllNamesMembers | scripts_other/fake_researches_generator/main_fake_researches_generator.py:211-213 | the names of a configuration are those of its sections |
| Categories.EnabledNamesMembers | scripts_other/fake_researches_generator/main_fake_researches_generator.py:217-221 | the addon names offered are those of the enabled sections |
| Scene.EmptyBoard | scripts_other/fake_researches_generator/main_fake_researches_generator.py:264-267 | the dictionary before population holds exactly the field's cells, none twice, every one free |
| Scene.NewBoard | scripts_other/fake_researches_generator/main_fake_researches_generator.py:264-267 | the nested loops build the dictionary with every field cell, in field order, all free |
| Scene.InsertColumn | scripts_other/fake_researches_generator/main_fake_researches_generator.py:266-267 | the inner loop appends column x's cells, rows upwards, each free |
| Scene.FreePositions | scripts_other/fake_researches_generator/main_fake_researches_generator.py:285-288 | availablePoints lists exactly the free cells, in dictionary order |
| Scene.AvailablePoints | scripts_other/fake_researches_generator/main_fake_researches_generator.py:285-288 | the collecting loop yields FreePositions |
| Scene.FreeCountAfterWrite | scripts_other/fake_researches_generator/main_fake_researches_generator.py:276-293 | a write removes at most one free cell, and exactly one when a free cell is filled |
| Scene.PlaceDecoys | scripts_other/fake_researches_generator/main_fake_researches_generator.py:269-278 | the decoy pass keeps the dictionary's keys |
| Scene.DecoyPass | scripts_other/fake_researches_generator/main_fake_researches_generator.py:269-278 | the decoy loop computes PlaceDecoys, errors included |
| Scene.DecoyPassFails | scripts_other/fake_researches_generator/main_fake_researches_generator.py:274-276 | on a non-empty field the pass fails iff a script decoy is drawn while there is no sprite |
| Scene.DecoyPassOnlyDecoys | scripts_other/fake_researches_generator/main_fake_researches_generator.py:271-278 | afterwards every cell is free, `_EMPTY_`, or a script decoy from the sprite list |
| Scene.DecoyPassFootprint | scripts_other/fake_researches_generator/main_fake_researches_generator.py:273-278 | each draw fills at most one cell, and a changed cell was drawn |
| Scene.DecoyPassWrites | scripts_other/fake_researches_generator/main_fake_researches_generator.py:273-278 | every draw's decoy is defined, and a drawn cell ends up holding the decoy of the last draw that chose it: `_EMPTY_` for a blank draw, the drawn sprite for a script draw (later picks overwrite earlier ones) |
| Scene.DecoyPassKeepsUndrawn | scripts_other/fake_researches_generator/main_fake_researches_generator.py:273-278 | a cell that no draw chooses keeps its value |
| Scene.Without | scripts_other/fake_researches_generator/main_fake_researches_generator.py:294 | the pool loses exactly the drawn aspect (as multisets) |
| Scene.FreeRank | scripts_other/fake_researches_generator/main_fake_researches_generator.py:285-290 | the j-th entry of availablePoints has exactly j free cells before it in dictionary order |
| Scene.DrawnCell | scripts_other/fake_researches_generator/main_fake_researches_generator.py:290 | the drawn point is the free cell with d.cell mod (number of free cells) free cells before it, as `random.choice(availablePoints)` picks by index |
| Scene.PlaceAspects | scripts_other/fake_researches_generator/main_fake_researches_generator.py:280-294 | the aspect pass keeps the dictionary's keys |
| Scene.AspectPass | scripts_other/fake_researches_generator/main_fake_researches_generator.py:280-294 | the aspect loop, recomputing availablePoints each time, computes PlaceAspects, errors included |
| Scene.AspectPassSplit | scripts_other/fake_researches_generator/main_fake_researches_generator.py:282-294 | the pass over all draws is the pass over draws[..k] followed by the pass over the rest, from the board and pool reached after draw k - 1 |
| Scene.AspectPassFirst | scripts_other/fake_researches_generator/main_fake_researches_generator.py:289-293 | the first draw's aspect, picked by its index in the pool, and its drawn highlight flag end up in the cell it picks, since later draws write only free cells |
| Scene.AspectPassPlaces | scripts_other/fake_researches_generator/main_fake_researches_generator.py:282-294 | draw k puts aspectsLeft[d.aspect mod len] of the pool left after the earlier draws, with its drawn withLighting flag, into the free cell it picks on the board left after the earlier draws, and that value is there at the end |
| Scene.IconsAfterFill | scripts_other/fake_researches_generator/main_fake_researches_generator.py:293 | putting an aspect in a free cell adds exactly that aspect to the board's aspects |
| Scene.AspectPassFails | scripts_other/fake_researches_generator/main_fake_researches_generator.py:283-291 | the pass fails iff there are more draws than free cells or than aspects |
| Scene.AspectPassWritesFreeCells | scripts_other/fake_researches_generator/main_fake_researches_generator.py:285-293 | occupied cells, decoys included, keep their value; a changed cell was free and now holds an aspect |
| Scene.AspectPassConserves | scripts_other/fake_researches_generator/main_fake_researches_generator.py:282-294 | one free cell and one pool aspect are used per draw; aspects on the board plus aspects left equal aspects before plus the pool |
| Scene.ComposeScene | scripts_other/fake_researches_generator/main_fake_researches_generator.py:262-294 | a finished scene's keys are the field's cells |
| Scene.DecoysLeaveRoom | scripts_other/fake_researches_generator/main_fake_researches_generator.py:270-278 | with at most 3R decoy draws and a sprite, the decoy pass succeeds and leaves at least 3R^2 + 1 cells free |
| Scene.SceneNeverRunsOut | scripts_other/fake_researches_generator/main_fake_researches_generator.py:270-294 | with both counts in [R, 3R], a sprite, and at least 3R aspects, no random choice is ever made from an empty list |
| Scene.SceneContents | scripts_other/fake_researches_generator/main_fake_researches_generator.py:264-294 | a finished scene covers the field; every cell is free, a decoy, or a catalogue aspect; it holds as many aspects as were drawn, none twice when the catalogue has none twice |
| Coco.EmittingPositions | scripts_other/fake_researches_generator/main_fake_researches_generator.py:298-333 | lists exactly the annotated cells (free, or aspect id > 0), in dictionary order |
| Coco.RenderAnnotations | scripts_other/fake_researches_generator/main_fake_researches_generator.py:297-333 | annotation k is the k-th annotated cell: id nextId + k, the image's id, category 0 for a free cell or the aspect's id, the cell's box, and area width * height |
| Coco.AnnotationAreas | scripts_other/fake_researches_generator/main_fake_researches_generator.py:313-333 | every annotation carries the image id, a square bbox of the slot size, and area bbox[2] * bbox[3] |
| Coco.EmittingCountInScene | scripts_other/fake_researches_generator/main_fake_researches_generator.py:311-333 | in a finished scene the annotated cells are the free cells plus the aspect cells; decoys are not annotated |
| Coco.HueCount | scripts_other/fake_researches_generator/main_fake_researches_generator.py:306-308 | the counter rises by exactly one per tincturem cell drawn and is never reset |
| Coco.HueSchedule | scripts_other/fake_researches_generator/main_fake_researches_generator.py:304-308 | the k-th tincturem tile drawn is shifted by 0.08 * (start + k + 1), and no other tile is shifted |
| Coco.CellOutput | scripts_other/fake_researches_generator/main_fake_researches_generator.py:299-333 | one cell's drawing (no contract of its own): its layers by case in CellLayers, its annotation in RenderAnnotations, its hue step in HueSchedule |
| Coco.RenderCells | scripts_other/fake_researches_generator/main_fake_researches_generator.py:297-333 | the drawing loop over the dictionary as a fold of CellOutput (no contract of its own): layers in LayerOrder, annotations in RenderAnnotations, hue counter in HueCount and HueSchedule |
| Coco.CellLayers | scripts_other/fake_researches_generator/main_fake_researches_generator.py:301-323 | a free cell pastes exactly the empty hexagon in its box; an occupied cell pastes its occupant's image in its box, preceded by a highlight in the same box iff it is a lit aspect; nothing else |
| Coco.LayerOrder | scripts_other/fake_researches_generator/main_fake_researches_generator.py:297-323 | the non-highlight layers of a scene are one per cell in dictionary order, the k-th being the empty hexagon in cell k's box when it is free and cell k's occupant in that box otherwise; a highlight comes right before each lit aspect's tile, in its box, and nowhere else |
| FileNames.Decimal | scripts_other/fake_researches_generator/main_fake_researches_generator.py:40 | `str(n)` is a non-empty digit string without a leading zero ("0" exactly for n = 0) |
| FileNames.DecimalRoundTrip | scripts_other/fake_researches_generator/main_fake_researches_generator.py:40 | reading back the decimal form of n gives n |
| FileNames.LastComponent | scripts_other/fake_researches_generator/main_fake_researches_generator.py:340 | `split('/')[-1]` holds no '/' |
| FileNames.FileName | scripts_other/fake_researches_generator/main_fake_researches_generator.py:40 | the file name aspects-all-rad-{R}-id-{i}.png (no contract of its own): FileNameOfPath ties it to the output path, NoSlashInFileName and FileNamesDistinct state its properties |
| FileNames.FileNameOfPath | scripts_other/fake_researches_generator/main_fake_researches_generator.py:339-340 | the recorded file name of image i is aspects-all-rad-{R}-id-{i}.png, the last component of its output path |
| FileNames.FileNamesDistinct | scripts_other/fake_researches_generator/main_fake_researches_generator.py:40 | two images of a run never share a file name |
| Dataset.SceneOutput | scripts_other/fake_researches_generator/main_fake_researches_generator.py:262-334 | one image of the run (no contract of its own): fails as ComposeScene fails, otherwise draws the scene; SceneCategories and SceneAnnotationCount state its annotations |
| Dataset.RunScenes | scripts_other/fake_researches_generator/main_fake_researches_generator.py:338-351 | the main loop as a fold of SceneOutput (no contract of its own): RunIds, RunCategories, RunFailsFromPrefix and RunNeverFails state its properties |
| Dataset.ImageRecords | scripts_other/fake_researches_generator/main_fake_researches_generator.py:338-349 | the image records of a run (no contract of its own): ImageRecordsDistinct states their ids and file names |
| Dataset.ImageRecordsDistinct | scripts_other/fake_researches_generator/main_fake_researches_generator.py:338-349 | image k has id k, and the file names are pairwise different |
| Dataset.RunFailsFromPrefix | scripts_other/fake_researches_generator/main_fake_researches_generator.py:338-341 | a run fails as soon as one image fails |
| Dataset.RunIds | scripts_other/fake_researches_generator/main_fake_researches_generator.py:313-333 | annotation ids are positions in the run-wide list (0, 1, 2, ...), every image id is an image of the run, and annotations are grouped by image in image order |
| Dataset.SceneCategories | scripts_other/fake_researches_generator/main_fake_researches_generator.py:312-328 | every annotation's category is 0 or the positive id of a catalogue aspect |
| Dataset.RunCategories | scripts_other/fake_researches_generator/main_fake_researches_generator.py:194-328 | with the registry's catalogue, every annotation's category id indexes the category list at an entry with that id |
| Dataset.SceneAnnotationCount | scripts_other/fake_researches_generator/main_fake_researches_generator.py:280-333 | an image gets one annotation per cell left free plus one per aspect drawn |
| Dataset.RunNeverFails | scripts_other/fake_researches_generator/main_fake_researches_generator.py:270-294 | with counts in [R, 3R], a sprite, and at least 3R aspects, every image of a run is generated |
| Dataset.Generator.constructor | scripts_other/fake_researches_generator/main_fake_researches_generator.py:181-185 | empty annotation and image lists, hue counter 0 |
| Dataset.Generator.GenerateImage | scripts_other/fake_researches_generator/main_fake_researches_generator.py:262-334 | succeeds iff the scene can be drawn; then it appends the scene's annotations and advances the hue counter as RenderCells says; on failure nothing changes |
| Dataset.Generator.Draw | scripts_other/fake_researches_generator/main_fake_researches_generator.py:297-333 | the drawing loop appends exactly RenderCells' layers and annotations |
| Dataset.Generator.DrawCell | scripts_other/fake_researches_generator/main_fake_researches_generator.py:299-333 | one cell's layers, annotation and hue step, as CellOutput |
| Dataset.Generator.AddImage | scripts_other/fake_researches_generator/main_fake_researches_generator.py:338-349 | one image generated and its record appended; the lists stay those of RunScenes |
| Dataset.Generator.AppendRecord | scripts_other/fake_researches_generator/main_fake_researches_generator.py:339-349 | appends the record of the next image (id, file name, size, date) and changes nothing else |
| Dataset.Generator.AddNext | scripts_other/fake_researches_generator/main_fake_researches_generator.py:338-341 | one iteration of the main loop: on success the lists hold the run of the first i + 1 scenes; on failure the whole run fails |
| Dataset.Generator.Run | scripts_other/fake_researches_generator/main_fake_researches_generator.py:338-351 | the main loop succeeds iff RunScenes does, and then the lists hold exactly the run's annotations and records |
| Channels.PyIndex | scripts_other/fake_researches_generator/main_fake_researches_generator.py:106 | a Python index within [-n, n) denotes a position in [0, n) |
| Channels.Inverted | scripts_other/fake_researches_generator/main_fake_researches_generator.py:124-126 | inverting keeps the pixel's length |
| Channels.InvertedAt | scripts_other/fake_researches_generator/main_fake_researches_generator.py:125-126 | a channel ends up as 255 - v iff it is listed an odd number of times; otherwise it keeps v |
| Channels.InvertTwice | scripts_other/fake_researches_generator/main_fake_researches_generator.py:121-127 | inverting the same channels twice restores the pixel |
| Channels.InvertKeepsRange | scripts_other/fake_researches_generator/main_fake_researches_generator.py:126 | values in 0..255 stay in 0..255 |
| Channels.Scaled | scripts_other/fake_researches_generator/main_fake_researches_generator.py:104-106 | scaling keeps the pixel's length |
| Channels.ScaleValue | scripts_other/fake_researches_generator/main_fake_researches_generator.py:106 | min(int(v * m), 255) on the exact product: never above 255 nor above int(v * m), and equal to one of the two |
| Channels.ScaledAt | scripts_other/fake_researches_generator/main_fake_researches_generator.py:104-106 | channel j after the loop is its old value scaled as many times as j is listed (Python indices resolved), so unlisted channels keep their value and a channel listed once becomes min(int(v * m), 255) |
| Channels.ScaleValueBounds | scripts_other/fake_researches_generator/main_fake_researches_generator.py:106 | min(int(v * m), 255) is in 0..255 for v, m >= 0, and at most v for m <= 1 |
| Channels.ScaledBounds | scripts_other/fake_researches_generator/main_fake_researches_generator.py:101-107 | unlisted channels are unchanged; values stay in 0..255 for m >= 0; with m <= 1 no channel gets brighter |
| Channels.InvertImageChannels | scripts_other/fake_researches_generator/main_fake_researches_generator.py:121-127 | every pixel of the array becomes Inverted of its old value |
| Channels.ModifyImageChannels | scripts_other/fake_researches_generator/main_fake_researches_generator.py:101-107 | every pixel of the array becomes Scaled of its old value |
| ImageDiff.DiffPercentOf | src/utils.py:64-99 | the corrected comparison (no contract of its own): DiffPercentErrors, DiffSymmetric, DiffWithItself and DiffBounds state its error cases and value |
| ImageDiff.DiffPercentAsWritten | src/utils.py:64-99 | the comparison as written, where a single-band image fails (no contract of its own): SingleBandCounterexample and AsWrittenAgreesOnMultiBand relate it to DiffPercentOf |
| ImageDiff.DiffPercentErrors | src/utils.py:64-99 | fails with the size error iff the sizes differ, then the mode error iff the modes differ, then the mask error iff a mask's size differs from image1's, then on an image without pixels, then with a zero division iff no pixel is kept |
| ImageDiff.NoMasksCountAll | src/utils.py:81-84 | with no masks every pixel is counted |
| ImageDiff.BlankMaskCountsNone | src/utils.py:81-84 | a mask that is zero everywhere keeps no pixel |
| ImageDiff.BlankMaskFails | src/utils.py:93-98 | when every pixel is masked out the final division fails |
| ImageDiff.NoMasksAverage | src/utils.py:81-98 | with no masks the result is the total difference over pixels * channels * 255 |
| ImageDiff.DiffWithItself | src/utils.py:90-98 | an image compared with itself gives 0 |
| ImageDiff.DiffSymmetric | src/utils.py:64-99 | swapping the images gives the same result, errors included |
| ImageDiff.DiffBounds | src/utils.py:96-98 | for channel values in 0..255 the result is in [0, 1] |
| ImageDiff.TotalBoolMask | src/utils.py:81-84 | the combined flag of pixel i is true iff every mask is nonzero at i |
| ImageDiff.DiffPercent | src/utils.py:64-99 | the checks and the accumulation loops compute DiffPercentOf |
| ImageDiff.SingleBandCounterexample | src/utils.py:89 | two one-pixel "L" images: the code as written fails, the intended result is 0 |
| ImageDiff.AsWrittenAgreesOnMultiBand | src/utils.py:89-98 | for images with two or more channels the code as written and the corrected definition agree |

## Left out

- Image loading, resizing, compositing, saving and the COCO JSON file header are
  not modelled. The work there is in PIL and file I/O. A scene's drawing is
  modelled as its ordered list of layers (`Coco.DrawOp`).
- `shiftHue`, `rgbToHsv` and `hsvToRgb` are not modelled. They are numpy
  floating-point colour conversion. Only the hue value handed to `shiftHue` is
  recorded.
- `distance`, the `Singleton` metaclass, `saveImage`, `createDirByFilePath` and
  `readJSONConfig` are left out. These are floating point, metaprogramming and
  I/O. A configuration is a parameter: its sections in file order, each with its
  aspect names in order.
- The pseudo-random generator is left out. Every draw is a parameter, as
  described above.
- `datetime.now()` is left out. The capture dates are a parameter of `Run`.
- Each aspect's image and mask are left out. So is the `withLighting` field of
  the shared aspect object. The flag drawn for an aspect is kept in the cell
  instead (`Scene.AspectPassPlaces`). It is written just before the aspect is
  placed and read only when that cell is drawn in the same scene, and an aspect
  is placed at most once per scene.
- Coco.HueSchedule: the counter is an exact count k with value 0.08 * k. The
  rounding drift of the repeated float addition `hueRotated += 0.08` is not
  modelled.
- HexGrid.CellBox: the box corner is computed in exact real arithmetic. Float
  rounding before `int()` is not modelled. The column pitch `15.5 * cos(pi / 6)`
  and the quality multiplier are parameters (`Layout`).
- Scene.Without: the model removes the drawn position. `aspectsLeft.remove`
  removes the first element equal to the drawn aspect. The two agree because
  the catalogue never holds an aspect twice (`Categories.CatalogueShape`).
- Channels.InvertImageChannels: requires every channel index to be within
  [-n, n) for an n-channel pixel. An out-of-range index raises IndexError
  partway through the image, and that case is not modelled.
- Channels.ModifyImageChannels: the same channel-index requirement applies.
  Values are stored as computed. What PIL does with a value outside 0..255
  (possible only with a negative factor) is not modelled.
- Channels.ScaleValue: `v * m` is the exact real product. Python multiplies
  in floating point and `int()` truncates the rounded product, so the two can
  differ when rounding lands on an integer (3 times the float nearest 1/3 is
  1.0 in Python, while the exact product is just below 1). Float rounding before
  `int()` is not modelled; the same holds for `Channels.Scaled`,
  `Channels.ScaledAt` and `Channels.ModifyImageChannels`.
- ImageDiff.DiffPercent: masks are given by their grayscale levels. The
  `convert("L")` colour conversion is left out.
- ImageDiff.DiffPercent: the result is an exact rational, not a float.

## Findings

| source | as written | input that shows it | evidently intended | confidence | as-written member | corrected member |
|---|---|---|---|---|---|---|
| src/utils.py:89 | the channel count is the `len()` of the first pixel, but a single-band image's pixels are plain ints, so the call raises TypeError | two 1x1 images of mode "L" with pixel value 0, no masks | a single-band pixel has one channel, and the result is 0 | medium, not executed | ImageDiff.DiffPercentAsWritten | ImageDiff.DiffPercentOf |
