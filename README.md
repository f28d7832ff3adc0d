# Exposer, modelled in Dafny

An *exposer* is a grid- and vote-based density classifier. The space of the
chosen features (`chosenLambda`) is cut into `grain` quants per dimension.
That gives a flat grid of `grain^d` cells holding one support per class.

- **Learning.** Every training sample is quantised to a cell. A
  precomputed set of *drop vectors* then spreads its influence over nearby
  cells. Each drop vector is an offset inside the quantised radius with a
  linear falloff weight. Shifted cells that leave the grid are skipped.
- **Normalisation.** Each class column is divided by its maximum.
- **Measures.** Every cell gets an HSV triple: hue is the first argmax
  divided by the number of classes, saturation is (max − min)/max, and
  value is the maximum. Counting the cells whose value exceeds a threshold
  gives per-class confidences `thetas` and their mean `theta`.
- **Prediction.** The query's cell is located and its support row is
  weighted according to the voting method. The result is added to the
  query's support accumulator.
- **Rendering.** A pixel array blends the first three class supports with
  the HSV colour of each cell of the first two dimensions.

The repository holds two variants, and the model keeps them apart:

| | `ece/Exposer.py` (module `Ece`) | `eec/Exposer.py` (module `Eec`) |
|---|---|---|
| missing features | `Option<real>`; a training sample with a missing chosen feature is skipped; a query uses .5 | plain reals, no skipping |
| presence threshold | .7 | .1 |
| query location | `int(x*grain)` below 1, `grain-1` from 1 on | `int(x*grain)`, then only a coordinate equal to `grain` becomes `grain-1` |
| voting | 5 methods (lone, theta1, theta2, theta3, thetas) | 3 participations (lone, theta1, theta2) |
| structure | constructor, then `Learn` | everything in the constructor |

The code the two files share textually is modelled once:

- `Basics`: options, truncation toward zero, powers, sums, entrywise vector
  operations, and bounds lemmas.
- `Position`: the mixed-radix position and its inverse.
- `Drops`: the odometer enumeration behind `dropVectors`.
- `Grid`: the exposure of the grid to one sample and column normalisation.
- `Measures`: the HSV triples and the presence confidences. The threshold
  is a parameter.
- `Render`: the pixel array of `png`.

`Compare` states how the two variants relate.

Each loop of the source is a `method` with a `while` loop. It is proved
equal to a recursive specification function:

- `Position.Position` against `Encode`;
- `Drops.Sweep` against `AllDrops`;
- `Grid.DepositAll` against `Deposit`;
- `Grid.Normalize` against `Normalized`;
- `Measures.Measure` against `HsvOf`, `Presence` and `Thetas`;
- `Render.Png` against `Image`;
- `Ece.TrainAll` against `Train`.

The source's promises are lemmas about those functions. The two `Exposer`
classes hold the grid, the triples and the confidences as fields, which
their methods reassign. `Predict` adds into caller-owned `array<real>`
accumulators in place.

The square root is a parameter `sqrt: real -> real`. Lemmas that need its
meaning require `IsSqrt(sqrt)`: for `x >= 0`, `sqrt(x) >= 0` and
`sqrt(x) * sqrt(x) == x`. Python's `int()` and `astype(int)` truncate
toward zero (`Basics.Trunc`). Python's float `%` floors (`Render.Mod2`).
A negative list index counts from the end (`Grid.PyIndex`).

Where the code divides by zero, it produces NaN. The model uses explicit
guards instead:

- A class column whose maximum is 0 is left unchanged (`Grid.Normalized`).
- When no cell is counted, presence is left undivided, so every confidence
  is 1 (`Measures.Thetas`, `Measures.ThetasNoneCounted`).

## Model

| member | source | states |
|---|---|---|
| Position.Powers | ece/Exposer.py:90-92 | the returned vector has d entries and entry i is grain^i (also eec/Exposer.py:74-76) |
| Position.Position | ece/Exposer.py:228-234 | the accumulated position is the mixed-radix value Σ p[i]·grain^i; for a coordinate inside [0,grain)^d it lies in [0, grain^d) (also eec/Exposer.py:205-210) |
| Position.EncodeBound | ece/Exposer.py:228-234 | every in-grid coordinate gets an index in [0, grain^d) |
| Position.EncodeInjective | ece/Exposer.py:228-234 | two in-grid coordinates of the same dimension with the same index are equal |
| Position.DecodeEncode | ece/Exposer.py:228-234 | reading the d base-grain digits of an in-grid coordinate's index gives the coordinate back |
| Position.EncodeDecode | eec/Exposer.py:205-210 | encoding the first d digits of any i gives i mod grain^d, so the position is onto [0, grain^d) |
| Position.DecodeInjective | eec/Exposer.py:205-210 | distinct indices below grain^d have distinct digit vectors |
| Drops.DropVectors | ece/Exposer.py:237-280 | the result is exactly the specified list for the quantised radius r = int(radius·grain): the points of [-r,r]^d in counter order whose norm is below r, each with weight (r-‖p‖)/r (also eec/Exposer.py:213-245) |
| Drops.Sweep | ece/Exposer.py:253-278 | the counter loop over i < (2r+1)^d builds exactly that list |
| Drops.Visit | ece/Exposer.py:260-278 | one outer iteration extends the enumeration invariant from step i to step i+1 |
| Drops.Advance | ece/Exposer.py:261-265 | after the inner loop at step i, component j of `v` is floor(i/diameter^j) mod diameter |
| Drops.Measure | ece/Exposer.py:266-271 | `point` is v + beginning, the step's point of the cube, and `distance` is its Euclidean norm |
| Drops.CubePoint | ece/Exposer.py:260-266 | every point of [-r,r]^d is produced at some step below (2r+1)^d |
| Drops.PointInjective | ece/Exposer.py:260-266 | two different steps produce two different points, so each point is visited exactly once |
| Drops.KeptIff | ece/Exposer.py:270-276 | the norm is non-negative, and it is below r iff the integer sum of squares is below r·r |
| Drops.DropVectorsMember | ece/Exposer.py:260-278 | a drop vector is in the list iff its offset is a d-dimensional point of the cube with norm below r and its weight is (r-‖p‖)/r |
| Drops.WeightBounds | ece/Exposer.py:276-278 | every kept weight lies in (0, 1] |
| Drops.AllDropsWeights | eec/Exposer.py:242-243 | every entry of the list has weight in (0, 1] |
| Drops.AllDropsDimensioned | ece/Exposer.py:266-278 | every kept offset has d components |
| Drops.DropsSymmetric | ece/Exposer.py:270-278 | when p is kept, −p is kept with the same weight |
| Drops.AllDropsDistinct | ece/Exposer.py:260-278 | no offset occurs twice in the list |
| Drops.OriginKept | ece/Exposer.py:276-278 | for r ≥ 1 the origin is kept with weight 1 |
| Drops.ZeroRadiusEmpty | ece/Exposer.py:247-278 | for r = 0 the list is empty |
| Grid.Zeros | ece/Exposer.py:107-109 | the fresh grid has grain^d rows of numClasses entries, all 0 |
| Grid.Overflows | ece/Exposer.py:146-152 | the overflow flag is set iff some coordinate of the shifted cell is outside [0, grain) |
| Grid.DepositAll | ece/Exposer.py:137-161 | the drop loop's grid equals depositing weight·factor of every drop vector at its shifted cell in the label's column, skipping cells off the grid |
| Grid.Expose | ece/Exposer.py:125-161 | one sample's pass equals the specified exposure: location int(features·grain) and factor 5 − ‖location_i − location‖ (also eec/Exposer.py:88-112) |
| Grid.DepositCells | ece/Exposer.py:141-161 | with distinct offsets, grid[position][label] grows by exactly its drop vector's share for every landed drop vector, and every other entry is unchanged |
| Grid.DepositNonNegative | ece/Exposer.py:159-161 | adding non-negative influences keeps a non-negative grid non-negative |
| Grid.FactorBounds | ece/Exposer.py:131-134 | the factor is at most 5, and it is non-negative when there are at most 25 features |
| Grid.PyIndex | ece/Exposer.py:187 | the looked-up row is the position itself when non-negative, and position + width when negative |
| Grid.Maximum | ece/Exposer.py:394 | the loop returns the column maximum |
| Grid.MaxOfIsMaximum | ece/Exposer.py:394 | the column maximum bounds every entry and is attained |
| Grid.Normalize | ece/Exposer.py:390-395 | the result is the grid with each class column divided by its maximum (also eec/Exposer.py:117-118) |
| Grid.NormalizedColumn | ece/Exposer.py:390-395 | a column with positive maximum ends with maximum exactly 1, no entry above 1, and the same order between any two cells, both strict and non-strict; a zero-maximum column is unchanged |
| Grid.NormalizedUnit | ece/Exposer.py:390-395 | a non-negative grid normalises into [0, 1] |
| Measures.Measure | ece/Exposer.py:346-388 | the loop yields the specified triple of every cell, the confidences 1 − presence/total for the given threshold, and their mean (also eec/Exposer.py:126-167) |
| Measures.CellMeasure | ece/Exposer.py:361-379 | the value is the cell's largest support, reached at the returned index and at no earlier one; hue·numClasses is that index, with hue in [0, 1); saturation is (max − min)/max, or 0 when the max is 0 |
| Measures.ArgMaxIsFirstMaximum | ece/Exposer.py:362 | the argmax entry is the maximum, and every earlier entry is strictly smaller |
| Measures.MinOfIsMinimum | ece/Exposer.py:363 | the minimum bounds every entry from below and is attained |
| Measures.CellHue | ece/Exposer.py:367 | hue·numClasses is the first argmax, and the hue is in [0, 1) |
| Measures.CellValue | ece/Exposer.py:361-377 | the value is the cell's maximum: attained at the argmax, not exceeded, and strictly above every earlier entry |
| Measures.CellSaturation | ece/Exposer.py:363-376 | saturation is (max − min)/max for a non-zero max; it is 0 iff max is 0 or max equals min; for non-negative supports it lies in [0, 1] |
| Measures.PresenceTotal | ece/Exposer.py:381-382 | the presence counts sum to the number of cells whose value exceeds the threshold |
| Measures.ThetasOfGrid | ece/Exposer.py:381-385 | when some cell is counted, thetas[c] = 1 − (cells decided for c)/(cells counted); a class that decides no cell has confidence 1 |
| Measures.ThetasBounds | ece/Exposer.py:384-385 | for non-negative presence every confidence lies in [0, 1] |
| Measures.ThetasCounted | ece/Exposer.py:384-388 | with a non-zero total the confidences sum to numClasses − 1, and theta = (numClasses − 1)/numClasses |
| Measures.ThetasNoneCounted | ece/Exposer.py:384-388 | with no counted cell every confidence is 1, and so is theta |
| Measures.Confidences | ece/Exposer.py:384-388 | with a non-zero total each class's confidence is 1 − presence/total, and the confidences sum to numClasses − 1; with a zero total of non-negative counts every confidence is 1; theta·numClasses is the sum of the confidences |
| Measures.DecisiveMonotone | ece/Exposer.py:381-382 | raising the threshold never increases the number of cells credited to a class |
| Measures.CountedCellsMonotone | ece/Exposer.py:381-382 | raising the threshold never increases the number of counted cells |
| Render.Guide | ece/Exposer.py:306-311 | the guide colour is the first three supports, padded with zeros |
| Render.Mod2 | ece/Exposer.py:319 | Python's `% 2` on a float: the result is in [0, 2) and differs from its argument by a whole multiple of 2 |
| Render.SectorIsSixth | ece/Exposer.py:321-332 | for a hue in [0,1), branch k applies iff k/6 ≤ h < (k+1)/6, so exactly one of the six applies |
| Render.HsvToRgbChannels | ece/Exposer.py:313-332 | chroma v·s lies in [0,1]; every channel is in [0, c]; in each sector the channels that equal c and the one that is 0 are fixed; a grey or black cell gives black |
| Render.BlendBounds | ece/Exposer.py:334-337 | guide·scale + channel·(255 − scale) stays in [0, 255] for a guide and channel in [0, 1] |
| Render.PixelBounds | ece/Exposer.py:334-337 | every channel of a pixel with unit supports and triple is in [0, 255] |
| Render.PlaneCell | ece/Exposer.py:301-305 | the vector (x, y, 0, …) is in the grid at position x + y·grain |
| Render.ImagePixel | ece/Exposer.py:298-338 | value 3x + k of row y is channel k of the pixel of cell x + y·grain |
| Render.PngRow | ece/Exposer.py:300-338 | row y is the specified row of 3·grain values |
| Render.Png | ece/Exposer.py:297-338 | the image is `grain` specified rows (also eec/Exposer.py:257-298) |
| Ece.AnyMissing | ece/Exposer.py:119-121 | the flag is set iff some chosen feature is missing |
| Ece.Pass | ece/Exposer.py:116-161 | one iteration over a sample leaves the grid unchanged for a sample with a missing feature, and otherwise exposes it |
| Ece.TrainAll | ece/Exposer.py:113-161 | the sample loop's grid equals the fold of the one-sample step over the samples |
| Ece.TrainAppend | ece/Exposer.py:113-161 | training on one more sample is one more step on the previous grid |
| Ece.TrainSkipsMissing | ece/Exposer.py:119-121 | training on all samples equals training on the samples with no missing chosen feature |
| Ece.StepCells | ece/Exposer.py:125-161 | a complete sample increases exactly model[position][label] of every landed drop vector, by weight·(5 − residual distance), and changes nothing else |
| Ece.StepNonNegative | ece/Exposer.py:159-161 | one step keeps a non-negative grid non-negative |
| Ece.TrainNonNegative | ece/Exposer.py:113-161 | training keeps a non-negative grid non-negative |
| Ece.LearnedUnit | ece/Exposer.py:100-164 | after learning every support is in [0, 1], and so is every cell's saturation and value |
| Ece.ContributionModes | ece/Exposer.py:191-216 | theta1 is theta·lone, theta3 is theta·theta2, and thetas is saturation·theta3 |
| Ece.ContributionBounded | ece/Exposer.py:191-216 | with confidences and saturation in [0,1], every method's contribution is between 0 and the raw support |
| Ece.ContributionUnweighted | ece/Exposer.py:191-209 | with all confidences 1, every method except thetas contributes the raw support |
| Ece.QueryInGrid | ece/Exposer.py:175-181 | with .5 for missing values and grain − 1 from 1 on, every query whose present features are non-negative lands inside the grid |
| Ece.Exposer.constructor | ece/Exposer.py:68-97 | the voting method defaults to lone; grain, radius and chosen lambda are stored; g holds the powers of grain and dropVectors the drop-vector list |
| Ece.Exposer.Learn | ece/Exposer.py:100-164 | the model is the normalised training of a zero grid, and the triples, confidences and theta are its measures at threshold .7 |
| Ece.Exposer.Normalize | ece/Exposer.py:390-395 | the model becomes its normalised grid and the measures are untouched |
| Ece.Exposer.CalculateMeasures | ece/Exposer.py:346-388 | the triples, confidences and theta become the model's measures at threshold .7, and the model is untouched |
| Ece.Exposer.AnswerableQuery | ece/Exposer.py:172-187 | a query whose present features are non-negative has a position in [0, grain^d) |
| Ece.Exposer.PredictOne | ece/Exposer.py:172-220 | the accumulator gains the voting method's contribution for the query's cell, added to what it held |
| Ece.Exposer.Predict | ece/Exposer.py:167-221 | every query's accumulator gains its own contribution, and nothing else changes |
| Ece.Exposer.Png | ece/Exposer.py:297-338 | the trained exposer's pixel array is the specified image |
| Eec.BuildNonNegative | eec/Exposer.py:82-112 | exposing to every sample keeps a non-negative grid non-negative |
| Eec.LearnedUnit | eec/Exposer.py:68-118 | after the build and normalisation every support is in [0,1], and so is every cell's saturation and value |
| Eec.ContributionBounded | eec/Exposer.py:186-195 | with confidences in [0,1], each participation contributes between 0 and the raw support |
| Eec.Clamp | eec/Exposer.py:177-179 | a coordinate equal to grain becomes grain − 1, and every other coordinate is unchanged |
| Eec.CoordinateInGrid | eec/Exposer.py:174-179 | a clamped coordinate is in [0, grain) iff its scaled feature is in (−1, grain + 1) |
| Eec.QueryInGridIff | eec/Exposer.py:173-179 | a query lands inside the grid iff every scaled chosen feature lies in (−1, grain + 1) |
| Eec.QueryInGrid | eec/Exposer.py:173-179 | every query with features in [0, 1] lands inside the grid |
| Eec.Exposer.constructor | eec/Exposer.py:51-167 | the configuration is stored; the matrix is the normalised build over all samples; the triples, the confidences and theta are its measures at threshold .1 |
| Eec.Exposer.AnswerableQuery | eec/Exposer.py:173-183 | a query with chosen features in [0, 1] has a position in [0, grain^d) |
| Eec.Exposer.PredictOne | eec/Exposer.py:173-195 | the accumulator gains the participation's contribution for the clamped cell, added to what it held |
| Eec.Exposer.Predict | eec/Exposer.py:170-198 | every query's accumulator gains its own contribution, and nothing else changes |
| Eec.Exposer.Png | eec/Exposer.py:257-298 | the pixel array is the specified image of the matrix |
| Compare.SameStep | eec/Exposer.py:84-112 | the first variant's step on a sample with every feature present equals the second variant's exposure |
| Compare.SameTraining | eec/Exposer.py:82-112 | training the first variant on samples with every feature present gives the second variant's grid |
| Compare.SameLearned | eec/Exposer.py:68-118 | on complete data both variants learn the same normalised grid |
| Compare.StricterPresence | eec/Exposer.py:152-153 | at .7 no class is credited more cells, and no more cells are counted, than at .1 |
| Compare.SameQueryLocation | eec/Exposer.py:173-179 | for features in [0, 1] both query-location rules give the same cell |
| Compare.QueryLocationsDiffer | eec/Exposer.py:177-179 | for the feature 2.0 with grain 1, the first rule gives cell 0, inside the grid, and the second gives 2, outside it |
| Compare.SameParticipation | eec/Exposer.py:186-195 | lone, theta1 and theta2 contribute the same in both variants |

## Left out

- File output: `open`, `png.Writer` and `write` are I/O. Only the pixel array is modelled.
- The `Classifier` base class, dataset loading, `sample.decidePrediction()` and `score` are outside the exposer. Samples and queries are parameters. The per-sample support accumulators are caller-owned arrays.
- Floating point: supports, distances and weights are exact `real`s. No claim is made about rounding. `math.sqrt` is the parameter `sqrt`.
- Division by zero: a zero column maximum and a zero presence total are guarded as described above, where the code would produce NaN.
- `int(math.pow(grain, d))` is the exact integer power.
- Dead code: `cmin_i` in both variants' measures, and `thetas_count`, `a`, `foo` and `u` in the first variant's. In the second variant, the .5-threshold saturation averages are computed and then overwritten.
- Ece.Exposer.Learn, Eec.Exposer.constructor: these require every label below the number of classes and every chosen index inside the features. For a label or index that is too large, Python raises an IndexError, which is not modelled. Labels and chosen indices are `nat`, so the model also has no negative label or index; Python would wrap those around to count from the end.
- Ece.Exposer.PredictOne, Eec.Exposer.PredictOne: these require the query position to be a valid Python index (`Answerable`). The model does not return the IndexError Python raises otherwise. `AnswerableQuery` gives the inputs for which the requirement holds.
- Ece.Exposer.Predict, Eec.Exposer.Predict: these require the accumulators to be distinct arrays. In the source every test sample owns its own `support`.
- Ece.Exposer.constructor, Eec.Exposer.constructor: these require grain ≥ 1, radius ≥ 0 and at least one class. They do not model the empty or negative configurations for which Python either fails or produces an empty grid.
- Ece.LearnedUnit, Eec.LearnedUnit: these assume at most 25 chosen features. Beyond that the factor 5 − distance can turn negative, and the unit bound no longer follows.
- Render.Png: the source computes `m = v − c` and never uses it. The model leaves it out.
- Render.Png, Render.PngRow, Ece.Exposer.Png, Eec.Exposer.Png: these require at least two chosen features. With one feature and grain ≥ 1, the source fails with an IndexError at `vector[1] = y`. The model excludes that error path instead of modelling it.
- The pixel values are reals. Their conversion to the PNG writer's integer format is part of the I/O left out.
