# pixels: hex colour tally, modelled in Dafny

The program reads an image, converts it to 8-bit RGB and counts how often each
exact colour occurs. Each colour is keyed by its `#RRGGBB` string. This project
models the two pieces of logic in `src/main.rs`:

- `hex.dfy`, module `Hex`: `pixel_to_hex`. A pixel is three `u8` channels
  (`Rgb`, with `Byte` = 0..255). The string is `#` followed by `{:02X}` of
  channels 0, 1 and 2. `{:02X}` means two upper-case hexadecimal digits with
  zero padding (`FormatByte`). A decoder (`HexToPixel`, built on `ParseByte`
  and `DigitValue`) is its partner. Both round trips are proved, so
  `pixel_to_hex` is injective. Its outputs are exactly the strings the decoder
  accepts.
- `tally.dfy`, module `Tally`: the counting loop in `main`. The decoded image
  is an `RgbImage`: `height` rows of `width` pixels, with `GetPixel(x, y)`
  standing in for `get_pixel`. `CountColors` is the outer `for y` loop and
  `CountRow` the inner `for x` loop. Each iteration calls `Increment`, the
  `entry(..).or_insert(0)` followed by `+= 1`. The inner loop is a separate
  method so that each loop is proved on its own; the pixels are still visited
  in the same order and the map is updated in the same way. The result is
  proved equal to `Histogram(Keys(img))`. `Keys(img)` is the pixels' hex
  strings in visiting order. `Histogram` maps each string to its multiplicity.
  The loop invariant says the map is the histogram of the pixels visited so
  far (`Visited(img, y, x)`). Since `Histogram` has exactly the visited strings
  as keys, a string that no visited pixel renders as is not a key. Lemmas then
  prove that:
  - each count equals the number of grid positions whose pixel renders as
    that key;
  - the keys are exactly the rendered pixels, and no count is zero;
  - the counts add up to `width * height`;
  - the map is empty exactly when the image has no pixels.

The project's own documentation also describes a k-means clustering engine;
the source has no such code, so it is not modelled. The model follows the code.

## Model

| member | source | states |
|---|---|---|
| `Hex.DigitValue` | src/main.rs:66 | a character is accepted exactly when it is one of `0-9A-F`; its value is below 16, and below 10 exactly for `0-9` |
| `Hex.HexDigit` | src/main.rs:66 | the digit printed for a nibble is in `0-9A-F` and reads back as that nibble |
| `Hex.FormatByte` | src/main.rs:66 | `{:02X}` gives exactly two upper-case hex digits, and the first is the padding `0` exactly when the value is below 16 |
| `Hex.ParseByte` | src/main.rs:66 | two characters are accepted exactly when both are upper-case hex digits |
| `Hex.PixelToHex` | src/main.rs:65-67 | the result has length 7 and starts with `#`, and every later character is in `0-9A-F` |
| `Hex.HexToPixel` | src/main.rs:66 | the decoder accepts only 7-character strings that start with `#` |
| `Hex.HexDigitOfDigitValue` | src/main.rs:66 | uppercase hex digit printing and reading are inverse in the other direction: every accepted digit is the one printed for its value |
| `Hex.PixelToHexDigits` | src/main.rs:66 | characters 1-2, 3-4 and 5-6 are the high and low nibble of channels 0, 1 and 2 in that order |
| `Hex.PixelToHexFields` | src/main.rs:66 | the three two-character fields after `#` are `{:02X}` of channels 0, 1 and 2 |
| `Hex.ParseFormatByte` | src/main.rs:66 | reading back the two digits of `{:02X}` gives the channel value |
| `Hex.FormatParseByte` | src/main.rs:66 | any two accepted digits are exactly `{:02X}` of the value they denote |
| `Hex.HexToPixelOfPixelToHex` | src/main.rs:65-67 | decoding `pixel_to_hex` of a pixel gives that pixel back |
| `Hex.PixelToHexOfHexToPixel` | src/main.rs:65-67 | every string the decoder accepts is `pixel_to_hex` of the pixel it returns |
| `Hex.PixelToHexInjective` | src/main.rs:65-67 | two pixels with the same hex string are equal, and a string is decodable exactly when some pixel renders as it |
| `Tally.RgbImage.Valid` | src/main.rs:41-42 | the decoded image has `height` rows of `width` pixels each, as `dimensions()` reports |
| `Tally.RgbImage.GetPixel` | src/main.rs:50 | column `x` of row `y`, defined only inside the grid (`get_pixel` panics outside it) |
| `Tally.Histogram` | src/main.rs:54-55 | the keys of the frequency map are exactly the strings seen, and every stored count is positive |
| `Tally.CountColors` | src/main.rs:45-57 | the finished `color_counts` is the histogram of all pixels' hex strings; each count is the number of positions rendering as its key; keys are exactly rendered pixels; no count is zero; counts sum to `width * height`; empty exactly for an image without pixels |
| `Tally.CountRow` | src/main.rs:49-56 | after the inner loop over row `y`, the map is the histogram of rows `0..y` plus all of row `y` |
| `Tally.Increment` | src/main.rs:54-55 | `or_insert(0)` then `+= 1` turns the histogram of the strings seen into the histogram of those strings followed by the new key |
| `Tally.TallyMeaning` | src/main.rs:45-57 | the histogram of all pixels counts each key once per position rendering as it, has exactly the rendered pixels as keys, has no zero count, sums to `width * height`, and is empty exactly for an image without pixels |
| `Tally.HistogramSnoc` | src/main.rs:54-55 | one more occurrence of a key raises its count by one from zero or its old value and leaves every other key unchanged |
| `Tally.VisitedPositionsStepX` | src/main.rs:49-51 | visiting pixel (`x - 1`, `y`) adds that position to the positions rendering as `k` exactly when its hex string is `k`, and the position is new |
| `Tally.VisitedPositionsStepY` | src/main.rs:48-49 | starting row `y` leaves the set of visited matching positions as it was at the end of row `y - 1` |
| `Tally.VisitedCountsStepX` | src/main.rs:50-55 | one inner-loop step keeps the occurrences of each key equal to the visited positions that render as it |
| `Tally.VisitedCounts` | src/main.rs:48-56 | after rows `0..y` and columns `0..x` of row `y`, each key occurs once per visited position rendering as it |
| `Tally.CountsArePositions` | src/main.rs:50-55 | the final count of a key is the number of grid positions `(x, y)` whose pixel renders as that key, zero for a missing key |
| `Tally.PositionsOfNonEmpty` | src/main.rs:50-51 | some grid position renders as `k` exactly when some pixel of the grid has hex string `k` |
| `Tally.KeysArePixels` | src/main.rs:54-55 | a key is in the map exactly when some pixel of the grid renders as it |
| `Tally.VisitedLength` | src/main.rs:48-49 | after rows `0..y` and columns `0..x` of row `y`, `y * width + x` pixels have been visited |
| `Tally.EmptyImage` | src/main.rs:45-49 | the map is empty exactly when `width == 0` or `height == 0` |
| `Tally.TotalRemove` | src/main.rs:45 | the sum of a map's counts is any one key's count plus the sum over the other keys |
| `Tally.TotalIncrement` | src/main.rs:54-55 | one `or_insert(0)` then `+= 1` adds exactly one to the sum of all counts |
| `Tally.TotalHistogram` | src/main.rs:48-57 | the counts of a histogram add up to the number of strings tallied |
| `Tally.TotalIsPixelCount` | src/main.rs:48-57 | the counts of the finished map add up to `width * height`, so every pixel is counted exactly once |
| `Tally.KeysOfTwoByTwo` | src/main.rs:48-51 | a 2 x 2 image with top row `a`, `b` and bottom row `c`, `d` is visited in the order `a`, `b`, `c`, `d`: top row first, each row left to right |
| `Tally.HistogramOfTwoPairs` | src/main.rs:54-55 | two occurrences each of two different keys give a count of 2 for each |
| `Tally.TwoByTwoExample` | src/main.rs:45-57 | an image with two black and two white pixels tallies `{#000000: 2, #FFFFFF: 2}` |

## Left out

- Command-line handling and the usage message (src/main.rs:10-16): environment input, no logic to model.
- Opening the file, guessing its format, decoding and `to_rgb8` (src/main.rs:17-42): these are calls into the `image` crate and the operating system. The decoded grid is the input of `CountColors`. `RgbImage.Valid()` states the crate's guarantee that the grid has `height` rows of `width` pixels.
- Printing the frequencies (src/main.rs:60-62): output only. `HashMap` iteration order is unspecified, so there is no order to model.
- Increment: counts are unbounded `nat`s, not `u32`. The source's `+= 1` could overflow only if one colour filled more than 2^32 - 1 pixels.
- `HashMap` hashing and storage are modelled by a Dafny `map<string, nat>`, so only the key-to-count contents are captured.
