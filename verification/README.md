# Colour combiner, modelled in Dafny

The service answers `POST /colors`. The request body holds a list of colour codes such as `#FF0000`. The service:

1. checks the list;
2. decodes every colour to a red, green and blue channel;
3. averages each channel;
4. prints the average back as a colour code;
5. reports the name of the nearest colour in a fixed six-entry palette.

This project models that pipeline from `main.go`, from the moment the request body has been decoded. It covers:

- the palette `colorDict`;
- `hexToRGB`, `rgbToHex`, `closestColorName` and `combineHexColors`;
- the validation inside the handler `combineColors`.

The Go library behaviour the pipeline relies on is modelled as well:

- `strconv.ParseUint` and `strconv.ParseInt` in base 16, for any bit size from 1 to 64 (`Strconv`);
- the `%02X` verb of `fmt` on an `int` (`Fmt`);
- Go's integer `/`, which truncates toward zero (`Combine.GoDiv`).

Modules:

| module | file | contents |
|---|---|---|
| `Wrappers` | wrappers.dfy | `Option` and `Result` |
| `Strconv` | strconv.dfy | base-16 `ParseUint` / `ParseInt`: the status, the saturated value, what each accepts |
| `Fmt` | fmt.dfy | `%02X` of an `int`, negative values included |
| `Color` | color.dfy | `hexToRGB` (`HexToRgb`) and `rgbToHex` (`RgbToHex`), with their round trips |
| `Names` | names.dfy | the palette and the nearest-name search `ClosestColorName` |
| `Seqs` | seqs.dfy | `Map` over a sequence, and the fact that it commutes with permutation |
| `Combine` | combine.dfy | `combineHexColors` (`CombineHexColors`), the mean `Mean`, its bounds and its order independence |
| `Handler` | handler.dfy | the validation `Validate` with its error enum, and the handler outcome `CombineColors` |
| `Scenarios` | scenarios.dfy | concrete requests worked through the general lemmas |

Three behaviours of the code are easy to miss, and all three are modelled as written:

- **Decoding saturates.** `hexToRGB` parses each pair with `ParseInt(pair, 16, 8)`, which gives a signed 8-bit result, and it ignores the error.
  - A pair above `7F` decodes to 127, so `FF` gives 127, not 255.
  - A pair that is not a numeral decodes to 0.
  - A signed pair such as `-F` decodes to -15.
  - As a result, `["#FF0000", "#00FF00"]` combines to `#3F3F00` and the name `Black`.
- **Validation accepts a sign.** The hex check is `ParseInt(color[1:], 16, 64)`, and Go's `ParseInt` accepts a leading `+` or `-`. So `#-F0000` passes validation.
  - It decodes to (-15, 0, 0).
  - Averaged with `#000000`, it gives -15 / 2, which Go truncates to -7.
  - `%02X` prints -7 as `-7`, so the combined colour is `#-70000`.
- **Ties depend on map order.** The search ranges over a Go map, whose order is unspecified.
  - The model takes the visiting order as a parameter: any arrangement of the palette entries.
  - It proves that the answer is the name of some nearest entry, whichever order is used.
  - Ties do occur: `#00FFFF` decodes to (0, 127, 127), which is at the same squared distance 16129 from White, Green and Blue. Any of the three may be answered.

Reading `FF` as 255 would give `#7F7F00` for red and green; the 8-bit parse makes it `#3F3F00`. Likewise `ParseInt` accepts a sign, so `#+12345` and `#-F0000` pass the hex check although they are not six hex digits.

## Model

| member | source | states |
|---|---|---|
| Strconv.ParseUintSpec | main.go:92 | base-16 `ParseUint` succeeds exactly on a non-empty digit string whose value fits in `bitSize` bits, and then returns that value; a digit string whose value does not fit in `bitSize` bits saturates to the largest value with a range error; a string of at most `bitSize/4` bytes never gives a range error |
| Strconv.ParseInt64Accepts | main.go:92-96 | `ParseInt(s, 16, 64)` on at most 15 bytes succeeds exactly when `s` is an optional sign followed by one or more hex digits |
| Strconv.ParseIntStatus | main.go:92 | `ParseInt` succeeds exactly when the unsigned parse of the digits after the sign succeeds with a magnitude inside the signed range (a magnitude of 2^(bitSize-1) is allowed only after `-`) |
| Strconv.ParseInt8Pair | main.go:22-24 | `ParseInt(pair, 16, 8)` of two bytes gives the pair's value capped at 127 for two hex digits, plus or minus the digit after a sign, and 0 for anything else |
| Fmt.FormatX02Byte | main.go:30 | `%02X` of a value in [0, 255] is two upper-case hex digits, the sixteens and then the units, that denote the value |
| Fmt.FormatX02OfPair | main.go:30 | every two-digit upper-case numeral is what `%02X` prints for its own value |
| Color.DecodeChannel | main.go:21-26 | each decoded channel is, by the shape of its pair: the pair's value capped at 127, plus or minus a signed digit, or 0; it always lies in [-15, 127] |
| Color.DecodePureHex | main.go:21-26 | a `#` and six hex digits decode, channel by channel, to the pair's value capped at 127, so each channel is in [0, 127] |
| Color.EncodeFormat | main.go:29-31 | channels in [0, 255] encode to `#` and six upper-case hex digits, and each pair denotes its channel |
| Color.DecodeEncode | main.go:21-31 | decoding an encoded colour with channels in [0, 255] caps each channel at 127; channels in [0, 127] come back unchanged |
| Color.EncodeDecode | main.go:21-31 | an upper-case colour whose three pairs are at most `7F` is reproduced exactly by decoding and re-encoding |
| Names.PaletteDecoded | main.go:11-18 | what `hexToRGB` makes of each palette entry: each `FF` becomes 127 and each `00` becomes 0 |
| Names.PaletteSelfDist | main.go:11-18 | a decoded palette colour is at distance 0 from its own entry and from no other entry |
| Names.ClosestColorName | main.go:33-47 | for every visiting order of the palette, the answer is the name of an entry whose distance is at most every entry's distance, and it is never `Unknown` |
| Names.NearestInOrder | main.go:37-44 | an entry least among those of a visiting order is least in the whole palette, since the order holds the same entries |
| Names.ClosestNameIsKnown | main.go:34-46 | no nearest-entry name equals the initial `Unknown` |
| Names.ClosestToPaletteColor | main.go:33-47 | queried with a palette entry's decoded colour, the search can answer that entry's name and no other, in every visiting order |
| Combine.GoDiv | main.go:60-62 | the quotient truncates toward zero: the remainder has the sign of the dividend and a magnitude below the divisor |
| Combine.SumChannels | main.go:53-58 | the loop's three running sums equal the channel sums of the decoded colours |
| Combine.CombineHexColors | main.go:49-69 | the combined colour is the encoding of the truncated mean of the decoded colours, and the name is a nearest palette name for that mean |
| Combine.GoDivBounds | main.go:60-62 | dividing a value between `n*lo` and `n*hi` by `n` gives a quotient between `lo` and `hi` |
| Combine.MeanWithin | main.go:50-62 | each combined channel lies within any bounds that hold for that channel of every decoded input, so between the inputs' minimum and maximum |
| Combine.PureHexMean | main.go:50-64 | on pure-hex input every channel sum is non-negative, each combined channel is the floor of sum over count and lies in [0, 127], and the combined colour is `#` and six upper-case hex digits |
| Combine.MeanOfCopies | main.go:53-62 | combining N >= 1 copies of a colour gives that colour as decoded |
| Combine.CombineCopiesOfCanonical | main.go:53-64 | N >= 1 copies of an upper-case colour whose pairs are at most `7F` combine to exactly that colour code |
| Combine.ChannelSumPermutation | main.go:53-58 | a channel sum depends only on the multiset of colours summed |
| Combine.MeanPermutation | main.go:53-62 | permuting the request leaves the combined colour, and so the set of possible names, unchanged |
| Seqs.MapPermutation | main.go:53-54 | decoding a permuted list gives a permutation of the decoded list |
| Handler.CheckColorSpec | main.go:88-96 | one element is rejected as `InvalidFormat` exactly when it is not seven bytes starting with `#`, as `InvalidHex` exactly when it has that shape but the rest is not an optionally signed hex numeral, and accepted otherwise |
| Handler.ValidateNoColors | main.go:82-85 | the empty list, and only the empty list, is rejected with `NoColors` |
| Handler.ValidateAccepts | main.go:82-97 | a request passes validation exactly when it is non-empty and every element is accepted |
| Handler.CheckEachFirstFailure | main.go:87-97 | the element loop reports the verdict on the first element that is not accepted |
| Handler.ValidateFirstFailure | main.go:87-97 | in a request whose elements before `i` are accepted and whose element `i` is not, the error is `InvalidHex` if element `i` has the seven-byte `#` shape and `InvalidFormat` otherwise |
| Handler.CombineColors | main.go:82-99 | the handler fails exactly when validation does, and with the validation's error; on success it returns the encoded mean and a nearest palette name, and for pure-hex input the colour is `#` and six upper-case hex digits |
| Scenarios.FormatNegative | main.go:30 | `%02X` prints -7 as `-7`, so (-7, 0, 0) encodes to the seven-byte string `#-70000` |
| Scenarios.DecodeSigned | main.go:21-26 | `#-F0000` decodes to (-15, 0, 0) |
| Scenarios.AcceptSignedColor | main.go:88-96 | `#-F0000` passes both element checks |
| Scenarios.RedAndGreen | main.go:49-64 | `["#FF0000", "#00FF00"]` combines to `#3F3F00` |
| Scenarios.RedAndGreenName | main.go:33-47 | for (63, 63, 0) the search can answer `Black` and nothing else |
| Scenarios.ClosestAmongDistances | main.go:37-44 | given the squared distance to each palette entry, the admissible names are exactly those of the entries with the least distance |
| Scenarios.CyanTie | main.go:33-47 | for (0, 127, 127) the admissible names are exactly White, Green and Blue, a three-way tie |
| Scenarios.SingleCyan | main.go:49-66 | `["#00FFFF"]` combines to `#007F7F`, and White, Green and Blue are each an admissible name for it |
| Scenarios.BlackAndNearlyBlack | main.go:49-64 | `["#000000", "#000001"]` combines to `#000000`: 1 / 2 truncates to 0 |
| Scenarios.SingleColor | main.go:49-64 | `["#112233"]` combines to `#112233` |
| Scenarios.SingleWhite | main.go:49-64 | `["#FFFFFF"]` combines to `#7F7F7F`, because `FF` saturates to 127 |
| Scenarios.SignedColor | main.go:49-64 | `["#-F0000", "#000000"]` combines to `#-70000`: -15 / 2 truncates to -7 |
| Scenarios.Rejections | main.go:82-96 | `[]` is rejected with `NoColors`, `["#FFF"]` with `InvalidFormat` and `["#GGGGGG"]` with `InvalidHex` |
| Scenarios.FirstRejectionWins | main.go:87-96 | `["#GGGGGG", "#FFF"]` is rejected with `InvalidHex`, the verdict on its first element |
| Scenarios.GoodColorFirst | main.go:87-96 | `["#FFFFFF", "#FFF", "#GGGGGG"]` is rejected with `InvalidFormat`, the verdict on its first bad element |

## Left out

- Decoding the JSON request body, and the `Invalid request body` rejection (main.go:71-80). This is library I/O. `CombineColors` starts from the decoded list of strings.
- Writing the JSON response (main.go:101) and the `http.Error` calls. They are replaced by the `Result` value; `Handler.Message` gives the message texts; `http.Error` appends a newline to them.
- Server start-up (main.go:104-108). This is I/O.
- `math.Sqrt` and floating point (main.go:39). The search compares integer squared distances instead. The squared distances are exact small integers and the square root is monotone, so `<` decides the same way on both.
- `math.MaxFloat64` (main.go:34). A `found` flag replaces it, since every finite distance is below it.
- Names.ClosestColorName: it does not say which of several equally near names is answered. That depends on Go's map iteration order, which is a parameter here and unspecified in Go.
- `hexToRGB` on a string shorter than seven bytes. Go panics on the slice; the model's `HexString` type excludes it. Validation guarantees the length before decoding.
- `combineHexColors` on an empty list. Go panics on the division by zero; the model requires a non-empty list. Validation rejects the empty list first.
- Go's fixed-width `int`. The sums and quotients are unbounded integers here. With channels in [-15, 127], a 64-bit sum cannot overflow for any list that fits in memory.
- `strconv` beyond base 16: other bases, base prefixes, underscores, and the exact text of `*NumError`. Only the status (nil, syntax, range) and the value are modelled.
- Bytes are written as `char`. Go strings are byte sequences, and only ASCII bytes matter to these checks.
