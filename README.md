# Logo palette, counters and carousel — a Dafny model of `script.js`

`script.js` is the script of a landing page. Once the logo image is decoded it
draws the image on a 120×120 canvas. It then samples every fourth pixel and
drops pixels whose alpha is below 200. A k-means clusterer (k = 3, six rounds,
seeded with the first three samples) reduces the samples to three colours.
These are sorted brightest first and written as the CSS variables `--primary`,
`--secondary`, `--accent`, `--bg` and `--text`, each as a `#rrggbb` string.
The script also animates number counters up to their target values and
rotates a testimonial carousel.

`script.dfy` (module `Script`) models the integer-valued part of all of this:

- **Rounding and mix.** `Math.round(n / d)` is `RoundDiv`, proved to return
  the nearest integer with halves rounding up. `mix` is `Mix`, with the ratio
  as an exact fraction `num / den`.
- **Hex encoding.** `rgbToHex` is `RgbToHex`. It is built from models of
  `toString(16)` and `padStart(2, "0")`. Its partner is the decoder
  `ParseHexColor`, and the two round-trip in both directions.
- **Sampler.** The sampling loop is the method `SamplePixels`. It is proved
  equal to `Samples`, whose contents are pinned to the kept byte offsets.
- **k-means.** `kMeans` is the imperative method `KMeans`, built from
  `NearestCentroid`, `AssignClusters`, `SumColors` and `UpdateCentroids`.
  Each of these is proved against a specification function: `Nearest`,
  `Clusters`, `Sum`, `Step` and `Clustered`. The properties of the
  specification functions are proved as lemmas: length, range, partition,
  tie-breaking, empty clusters and uniform input.
- **Palette.** The sort, role selection, background retry and the five CSS
  writes are the method `ApplyPaletteFromLogo`. It returns the writes it
  performs and whether the script stops with a TypeError.
- **Counter.** The counter animation is `AnimateCounter`, a loop that returns
  the displayed values.
- **Carousel.** The carousel is the class `Carousel`, with a `bool` array of
  `is-active` flags and the index `currentSlide`.

Two behaviours of the code are easy to misjudge, and the model follows the
code in both:

- **The red/blue/green example.** One might expect ten red, ten blue and ten
  green samples with k = 3 to give roughly red, blue and green centroids.
  The code seeds with the first three samples, which are all red. Round 1
  moves centroid 0 to grey (85,85,85) and leaves the other two red. From
  round 2 on, blue and green share centroid 0, which settles at teal
  (0,128,128). `BlocksClustered` proves `[(0,128,128), (255,0,0), (255,0,0)]`
  for every block size of at least 3.
- **Fewer samples than k.** With two opaque samples the accent falls back
  to the secondary and all five variables are written. With exactly one,
  `secondary` is `undefined`, so `rgbToHex(secondary)` throws after
  `--primary` has been written. `ApplyPaletteFromLogo` models this as one
  write followed by `threw`.

## Model

| member | source | states |
|---|---|---|
| Script.RoundDiv | script.js:46 | `Math.round(n / d)` for d > 0 is the integer q with d(2q−1) ≤ 2n < d(2q+1): the nearest integer, halves rounding up |
| Script.RoundDivExact | script.js:46 | rounding an exact quotient d·v / d gives v back |
| Script.RoundDivMonotone | script.js:46 | rounding the quotient preserves order of numerators |
| Script.RoundDivRange | script.js:42-46 | a rounded mean of a total in [d·lo, d·hi] lies in [lo, hi] |
| Script.MixChannel | script.js:19 | for a ratio in [0, 1], one mixed channel lies between the two input channels |
| Script.Mix | script.js:18-19 | for a ratio in [0, 1], every channel of the mix lies between those of the inputs; in-range inputs give an in-range colour |
| Script.MixEndpoints | script.js:18-19 | ratio 0 returns the first colour unchanged, ratio 1 the second |
| Script.MixSymmetric | script.js:18-19 | mixing a towards b by r equals mixing b towards a by 1 − r; at 1/2 the mix is symmetric |
| Script.HexDigit | script.js:22 | `toString(16)` of a value below 16 is one lower-case hex digit |
| Script.ParseHexColor | script.js:21-22 | the decoder of the `#rrggbb` format: defined exactly on well-formed strings, and always yields in-range channels |
| Script.ChannelHexDigits | script.js:22 | a channel in [0,255] becomes exactly two digits, high nibble first, zero-padded when below 16 |
| Script.RgbToHex | script.js:21-22 | `rgbToHex` always starts with `#` and is at least seven characters long, whatever the channels |
| Script.RgbToHexWellFormed | script.js:21-22 | an in-range colour encodes as `#` followed by six lower-case hex digits, two per channel in r, g, b order |
| Script.RgbToHexRoundTrip | script.js:21-22 | decoding `rgbToHex(c)` gives c back if and only if c is in range |
| Script.ParseHexColorRoundTrip | script.js:21-22 | every `#rrggbb` string is the encoding of the colour it decodes to |
| Script.OffsetsFrom | script.js:70-73 | the kept offsets from i on: multiples of 16 with alpha ≥ 200, strictly increasing, and every such offset is listed |
| Script.Samples | script.js:69-74 | the samples of a whole buffer: at most ⌈len / 16⌉ of them, all in range when the buffer holds bytes |
| Script.SamplePixels | script.js:69-74 | the sampling loop collects exactly `Samples(data)` |
| Script.SamplesAtOffsets | script.js:69-74 | the k-th sample is the RGB of the pixel at the k-th kept offset, so samples follow increasing offset order |
| Script.SamplesLength | script.js:70 | at most one sample per 16 bytes: at most ⌈len / 16⌉ samples |
| Script.SamplesInRange | script.js:73 | samples of a byte buffer are in-range colours |
| Script.SqDist | script.js:32 | the squared RGB distance is never negative |
| Script.SqDistZero | script.js:32 | the distance is zero exactly from a colour to itself |
| Script.NearestIn | script.js:29-37 | the scan's choice has minimum squared distance, and it is strictly nearer than every lower index, so ties go to the lowest index |
| Script.Nearest | script.js:29-37 | the cluster a pixel joins is an index of the centroids, or 0 when there are none |
| Script.NearestCentroid | script.js:29-37 | the `best`/`bestDist` loop, with `Infinity` as `None`, returns `Nearest(p, centroids)` |
| Script.Members | script.js:28-39 | cluster i never holds more pixels than there are |
| Script.Clusters | script.js:27-39 | one round's `clusters` array has one list per cluster, k in all |
| Script.ClustersPush | script.js:38 | assigning one more pixel pushes it onto the list of its nearest centroid and changes no other list |
| Script.AssignClusters | script.js:27-39 | the assignment loop builds exactly `Clusters(pixels, centroids, k)` |
| Script.Sum | script.js:42-45 | the `reduce` starts from [0,0,0]: an empty list sums to [0,0,0], and one colour sums to itself |
| Script.SumBounds | script.js:42-45 | a sum of n in-range colours lies within [0, 255·n] in every channel |
| Script.Mean | script.js:46 | each channel of the mean is the integer nearest sum / n, halves rounding up |
| Script.SumColors | script.js:42-45 | the `reduce` over a cluster returns its channel-wise `Sum` |
| Script.Step | script.js:40-47 | one round keeps one centroid per seed |
| Script.Iterate | script.js:26-48 | any number of rounds keeps one centroid per seed |
| Script.Seed | script.js:25 | the seeds are the first min(k, n) pixels, in order |
| Script.Clustered | script.js:24-50 | `kMeans(pixels, k)` returns min(k, n) centroids |
| Script.UpdateCentroids | script.js:40-47 | the update loop returns `Step(pixels, centroids)`: non-empty clusters move to their rounded mean and the rest keep their centroid |
| Script.KMeans | script.js:24-50 | `kMeans(pixels, k)` returns `Clustered(pixels, k)`: six `Step`s from the first min(k, n) pixels |
| Script.MembersSpec | script.js:28-39 | cluster i holds exactly the pixels whose nearest centroid is i |
| Script.MembersBeyond | script.js:25-38 | clusters with no seeded centroid stay empty |
| Script.ClustersPartition | script.js:27-39 | the k cluster sizes add up to the number of pixels |
| Script.StepCentroid | script.js:40-47 | a centroid no pixel is nearest to keeps its value; otherwise it moves to the rounded mean of its non-empty cluster |
| Script.MeanInRange | script.js:42-46 | the rounded mean of in-range colours is in range |
| Script.StepInRange | script.js:40-47 | a round keeps in-range centroids in range |
| Script.IterateInRange | script.js:26-48 | any number of rounds keeps centroids in range |
| Script.ClusteredInRange | script.js:24-50 | every centroid returned for in-range samples is in range |
| Script.SumUniform | script.js:42-45 | the sum of n copies of c is n·c |
| Script.MeanUniform | script.js:46 | the mean of copies of c is c |
| Script.StepUniform | script.js:40-47 | a round leaves centroids that all equal the uniform input colour unchanged |
| Script.IterateFixed | script.js:26-48 | centroids one round leaves unchanged stay unchanged for any number of rounds |
| Script.IterateUniform | script.js:26-48 | so do six rounds |
| Script.UniformInput | script.js:24-50 | samples of one colour give min(k, n) centroids, all of that colour |
| Script.FirstRound | script.js:26-47 | blocks of red, blue and green from three red seeds: every sample ties, so all go to centroid 0, which moves to grey |
| Script.SecondRound | script.js:26-47 | from [grey, red, red], red goes to centroid 1, and blue and green pull centroid 0 to teal |
| Script.LaterRound | script.js:26-47 | [teal, red, red] is a fixed point of a round |
| Script.BlocksClustered | script.js:24-50 | `kMeans` of n red, n blue and n green samples (n ≥ 3) with k = 3 is [teal, red, red] |
| Script.InsertDesc | script.js:78 | inserting into a brightest-first list keeps it sorted and adds exactly the new element |
| Script.SortByLuminance | script.js:78 | the palette sort returns a permutation of its input, sorted by descending luminance |
| Script.SortStable | script.js:78 | the sort is stable: colours of equal luminance keep their relative order |
| Script.Background | script.js:80-84 | `bg` is the primary mixed 7/10 towards (10,13,22), or 17/20 when the first mix is lighter than 0.4; each channel lies between primary and dark base, in range when the primary is |
| Script.TextColorHex | script.js:85-91 | the text colour is written as `#f7f7fb` |
| Script.Palette | script.js:78 | the palette is the k-means centroids (k = 3), reordered brightest first |
| Script.PaletteShape | script.js:78-79 | the palette has min(3, n) colours, in range when the samples are; a single sample is its own palette |
| Script.RoleColors | script.js:79-91 | primary, secondary, accent (or secondary), bg and text: five colours, all in range for an in-range palette |
| Script.PaletteWrites | script.js:79-91 | five writes under the five variable names in order: primary, secondary, the third colour or else the secondary as accent, and bg |
| Script.PaletteWritesHex | script.js:85-91 | `--text` gets `#f7f7fb`, and an in-range palette gives only `#rrggbb` values |
| Script.ApplyPaletteFromLogo | script.js:69-91 | no opaque sample: no write; one sample: `--primary` then a TypeError; otherwise the five writes of the sorted palette; every value written for a byte buffer is a `#rrggbb` colour |
| Script.CounterStep | script.js:100 | the step is at least 1, is 1 below target 100, and is ⌊target/50⌋ from target 50 on |
| Script.FrameCount | script.js:101-108 | the number of values shown: at least one, and once target exceeds the step, target lies in ((frames − 1)·step, frames·step] |
| Script.AnimateCounter | script.js:98-110 | the displayed values are step, 2·step, … with step = max(1, ⌊target/50⌋), each below target and strictly increasing; the last value is target itself |
| Script.FrameCountBound | script.js:100-108 | whatever the target, a counter shows between 1 and 99 values |
| Script.CounterToHundred | script.js:98-110 | a counter with target 100 shows 2, 4, …, 100 |
| Script.Carousel.constructor | script.js:130-131 | the carousel starts at slide 0 with the page's flags |
| Script.Carousel.Update | script.js:133-139 | with n > 0 slides, `currentSlide` becomes (old + 1) mod n and exactly that slide is active; with none, nothing changes and the index stays 0 |
| Script.CarouselOfFour | script.js:133-139 | with four slides, three steps activate only slide 3, and a fourth wraps to slide 0 |

## Left out

- `getLuminance` (script.js:10-16) is floating-point sRGB linearisation. The model takes it as a parameter `luminance: Rgb -> real`. So `SortByLuminance` and the 0.4 test in `Background` hold for any luminance function.
- Script.Mix: computes over exact rationals. The script computes `v * (1 - ratio) + w * ratio` in binary floating point. Where that float lands just below an exact .5, the script can round one unit lower than the model.
- The comparator subtracts two floating-point luminances; luminances that are NaN are not modelled. An insertion sort, stable like the engine's sort, stands in for `Array.prototype.sort`.
- Script.KMeans: requires k > 0 or no pixels. With k = 0 and at least one pixel, the script throws (`clusters[0]` is undefined); that throw is not modelled.
- The missing-logo early return (script.js:53) is not modelled.
- `Image` decoding and `await` (script.js:55-59) are not modelled.
- Drawing onto the 120×120 canvas (script.js:61-67) is not modelled. The model takes the RGBA buffer as input, of any length that is a multiple of 4.
- `setCSSVar` and `style.setProperty` (script.js:6-8) become the returned list of `CssWrite`s.
- `Number(el.dataset.count || 0)` (script.js:98) is not modelled. `AnimateCounter` takes an integer target. Fractional, NaN and very large (above 2^53) targets are outside the model.
- `requestAnimationFrame` (script.js:108) becomes one loop iteration per frame.
- `textContent` writes (script.js:104, 107) become the returned list of displayed integers.
- The `IntersectionObserver` wiring (script.js:114-128) is not modelled.
- `setInterval(updateCarousel, 6000)` (script.js:141) is not modelled. `Carousel.Update` is one timer tick.
- `classList.toggle` becomes an assignment to the slide's flag.
- The set of testimonial slides is fixed when the page loads (script.js:131).
