# laravel-coordinates: a Dafny model of the coordinate converters

The model covers the exact, discrete layer of the coordinate converters and the
value objects built around them. The trigonometric projection maths is not part
of it.

- **Value objects.** There are five: `LatLng`, `GeoHash`, `UTM`, `DMS` and `DDM`.
  They share one precision sentinel, in which `-1` means 6 decimals. Together
  with the plain `Coordinate` and the `CoordinateFormat` enumeration, they are
  immutable datatypes with pure functions (`Dtos`, `BaseCoordinate`,
  `Coordinates`, `CoordinateFormat`). Each `toString` is read back field by
  field by the readers in `DtoReaders`.
- **Geohash encoder.** The encoder bisects the world, longitude first. It packs
  five bits into each character of a 32-letter alphabet and stops after twelve
  characters. `LatLngToGeoHash.Run` keeps the source's `while` loop and
  variables. It is proved against a specification over bit sequences kept in
  `GeoHashBits`.
- **Geohash decoder.** `GeoHashToLatLng.Run` replays the bits of each character
  with the source's nested loops and masks `1 << (4 - j)`. It then returns the
  middle of the box, rounded.
- **DMS and DDM converters.** They split a coordinate into a signed floor of
  degrees, minutes and seconds (`LatLngToDms`, `LatLngToDdm`). The last field is
  rounded half-down only for a precision of 0 or more. The text carries N/S and
  E/W hemisphere letters. The model proves that the text reads back as the
  coordinate, to within the rounding.
- **UTM forward converter.** This is the bookkeeping part (`LatLngToUtm`):
  - the 6° zone and the 8° band letter, using PHP's string-offset semantics
    outside the band range;
  - the Norway and Svalbard exceptions, as the source's chain of `if`s
    (`AdjustZone`);
  - the false easting and northing;
  - the converter's own default precision of 9.
- **UTM inverse converter.** `UtmToLatLng` covers:
  - the hemisphere test on the band letter's position;
  - removing the false offsets;
  - the central meridian of the zone.
- **Projection maths as parameters.** The transcendental steps are passed in as
  the `Numerics.Kernels` record of total functions:
  - the forward and inverse transverse Mercator projection, meaning the Krüger
    series and the Newton iteration for the latitude;
  - the decoder's log-based count of digits.

  The UTM round trip is proved for every pair of kernels that invert each other
  and keep the hemisphere. `Numerics.Swap` shows that such kernels exist.

Numbers are Dafny `real`s. PHP's `round(…, PHP_ROUND_HALF_DOWN)` becomes
`Numbers.RoundHalfDown`. `sprintf("%.pf")` becomes `Strings.FixedToString`, a
half-up rendering of the scaled value. `(int)` and `(float)` casts of strings
become `Strings.ParseInt` and `Strings.ParseFloat`, which read the leading
number. `strpos` becomes `Strings.StrPos`, whose `None` stands for `false`.

Three details of the code that the model keeps:

- the decoder's digit count is `floor((2 - ln w) / ln 10)`, taken here as a kernel;
- DMS and DDM degrees are a signed floor, so -12.5 gives -13° 30', not a
  magnitude;
- the forward converter adds the false northing when the projected northing is
  negative (`LatLngToUtm.Forward`); `LatLngToUtm.FalseNorthingBySign` ties this
  to the sign of the latitude for kernels that keep the hemisphere.

## Model

| member | source | states |
|---|---|---|
| CoordinateFormat.Cases | src/Enums/CoordinateFormat.php:9-11 | there are exactly three declared cases, each listed once |
| CoordinateFormat.Values | src/Enums/CoordinateFormat.php:13-16 | `values()` holds three distinct backing strings, among them every declared case's value |
| CoordinateFormat.ValuesInOrder | src/Enums/CoordinateFormat.php:9-16 | `values()` is exactly `["DMS", "DDM", "UTM"]` |
| CoordinateFormat.ValueInjective | src/Enums/CoordinateFormat.php:9-11 | each case's value is its own name, so two cases have equal values iff they are the same case |
| CoordinateFormat.Name | src/Enums/CoordinateFormat.php:18-25 | `toString()` is total and gives a non-empty name |
| CoordinateFormat.NameInjective | src/Enums/CoordinateFormat.php:18-25 | distinct cases have distinct names, in both directions |
| Dtos.Defaults | src/Dtos/LatLng.php:19-23 | the value objects' defaults: LatLng (0, 0), GeoHash "", UTM (0, "", 0, 0), DMS and DDM zeros with N and E |
| Dtos.GetPrecisionFacts | src/Dtos/Concerns/BaseCoordinate.php:26-29 | the precision is never negative, is p for p >= 0 and 6 below 0, and is idempotent |
| Dtos.NorthSouth | src/Dtos/LatLng.php:35-38 | the latitude's letter is "N" or "S", and "N" iff latitude >= 0 |
| Dtos.EastWest | src/Dtos/LatLng.php:45-48 | the longitude's letter is "E" or "W", and "E" iff longitude >= 0 |
| Dtos.LatLngToStringMirror | src/Dtos/LatLng.php:50-63 | mirroring a point across the equator changes only its hemisphere letter, so the sign shows only through the letters |
| Dtos.GeoHashToString | src/Dtos/GeoHash.php:30-35 | `toString(p)` is a prefix of the hash of length min(getPrecision(p), hash length) |
| Dtos.GeoHashToStringDefaults | src/Dtos/GeoHash.php:30-35 | the default 12 keeps a hash of up to 12 characters; -1 keeps at most 6, exactly the first 6 of a longer hash |
| Dtos.PadDegreesAsWrittenLosesSign | src/Dtos/DMS.php:114-115 | as written, longitude -5 is padded to "0-5", which `(int)` reads as 0 |
| Dtos.PadDegreesAsWrittenReadsBack | src/Dtos/DMS.php:114-115 | `(int)` reads the padded longitude degrees back as the degrees, except -9 to -1, which read as 0 |
| Dtos.ZeroPad | src/Dtos/DMS.php:114-115 | a magnitude zero-padded to any width keeps its value and has at least that many digits |
| Dtos.PadDegreesReadsBack | src/Dtos/DDM.php:92-93 | the three-wide `%03d` field, sign first, reads back as the degrees for every longitude |
| Dtos.PadDegreesAgree | src/Dtos/DDM.php:92-93 | `str_pad` and the `%03d` field write the same text iff the degrees are not -9 to -1 |
| Dtos.DmsToStringAgrees | src/Dtos/DMS.php:110-128 | the DMS text and its `%03d` variant are equal whenever the longitude degrees are outside -9 to -1 |
| Dtos.DdmToStringAgrees | src/Dtos/DDM.php:88-104 | the DDM text and its `%03d` variant are equal whenever the longitude degrees are outside -9 to -1 |
| DtoReaders.LatLngReadsBack | src/Dtos/LatLng.php:50-63 | split at spaces, the text gives back both coordinates as their rounded magnitudes signed by the S and W letters, each within half a unit of the last decimal |
| DtoReaders.ShownExact | src/Dtos/LatLng.php:54-55 | a coordinate with at most p decimals is shown as itself: rounding its magnitude half-down and restoring its sign gives it back |
| DtoReaders.DmsReadsBack | src/Dtos/DMS.php:110-128 | split at spaces, degree signs and quotes, the text gives back both degrees, minutes and hemispheres exactly and both seconds to within half a unit of the last decimal; longitude degrees -9 to -1 read as 0 |
| DtoReaders.DmsCorrectedReadsBack | src/Dtos/DMS.php:110-128 | with the `%03d` field every DMS field reads back, longitude degrees -9 to -1 included |
| DtoReaders.DdmReadsBack | src/Dtos/DDM.php:88-104 | split at spaces and degree signs, the text gives back both degrees and hemispheres exactly and both minutes to within half a unit of the last decimal; longitude degrees -9 to -1 read as 0 |
| DtoReaders.DdmCorrectedReadsBack | src/Dtos/DDM.php:88-104 | with the `%03d` field every DDM field reads back, longitude degrees -9 to -1 included |
| BaseCoordinate.ConvertDispatch | src/Dtos/LatLng.php:65-73 | a handled pair gives a value of the requested kind; any other pair, and every DMS or DDM value, gives the object itself |
| BaseCoordinate.ConvertToOwnKind | src/Dtos/GeoHash.php:37-43 | converting to the format a value already has changes nothing |
| BaseCoordinate.FormatUnhandled | src/Dtos/Concerns/BaseCoordinate.php:21-24 | `format` to a format the object cannot convert to renders the object itself at that precision |
| BaseCoordinate.TextDefaults | src/Dtos/Concerns/BaseCoordinate.php:11-19 | `__toString` and `jsonSerialize` render at 6 decimals, and a geohash of up to 12 characters whole |
| BaseCoordinate.GeoHashSentinel | src/Dtos/GeoHash.php:30-32 | `format` with an explicit -1 cuts a 12-character hash to 6, while `__toString` keeps all 12 |
| BaseCoordinate.ConvertUtmRoundTrip | src/Dtos/UTM.php:66-72 | a UTM value the forward converter computed, unrounded, converts back to its LatLng |
| GeoHashBits.EncodeBits | src/Converter/LatLngToGeoHash.php:40-59 | the encoder's bit stream has one bit per pass |
| GeoHashBits.EncodeBitMeaning | src/Converter/LatLngToGeoHash.php:41-58 | bit i is 1 iff the coordinate is strictly above the current box's middle; the longitude is used for even i and the latitude for odd i |
| GeoHashBits.ReplayWidths | src/Converter/LatLngToGeoHash.php:41-61 | after n bits the longitude has been halved ceil(n/2) times and the latitude floor(n/2) times, so 30 each after 60 bits |
| GeoHashBits.ReplayInWorld | src/Converter/GeoHashToLatLng.php:29-54 | every replayed box is ordered (min <= max) and inside [-90, 90] x [-180, 180] |
| GeoHashBits.EncodeInside | src/Converter/LatLngToGeoHash.php:30-58 | for a point of the world, min <= value <= max holds on both axes after every bit |
| GeoHashBits.ReplayPrefixNests | src/Converter/GeoHashToLatLng.php:40-54 | the box of a prefix of the bits contains the box of all of them |
| GeoHashBits.CharsInAlphabet | src/Converter/LatLngToGeoHash.php:12 | every character packed from five bits is in `0123456789bcdefghjkmnpqrstuvwxyz` |
| GeoHashBits.ToNat | src/Converter/LatLngToGeoHash.php:44-56 | k bits packed most significant first give a value below 2^k, so five give an index of 0..31 |
| GeoHashBits.CharValueIsStrPos | src/Converter/GeoHashToLatLng.php:37 | a character's index equals its first `strpos` position in the alphabet, and 0 where there is none |
| GeoHashBits.StrPosOfLetter | src/Converter/GeoHashToLatLng.php:37 | the alphabet's i-th letter is found at position i |
| GeoHashBits.HashBitsOfChars | src/Converter/GeoHashToLatLng.php:37-39 | the decoder's bits of the characters packed from a bit stream are that bit stream |
| GeoHashBits.PrefixBoxNests | src/Converter/GeoHashToLatLng.php:35-56 | decoding a prefix of a hash gives a box that contains the box of the whole hash |
| GeoHashBits.EncodeDecodeBox | src/Converter/GeoHashToLatLng.php:38-56 | replaying the encoder's 12 characters reproduces the encoder's final box, which contains the point |
| LatLngToGeoHash.Run | src/Converter/LatLngToGeoHash.php:23-70 | the loop writes exactly the 12-character encoding of the point's first 60 bits |
| LatLngToGeoHash.Bisect | src/Converter/LatLngToGeoHash.php:41-58 | one pass takes the upper half iff the coordinate is above the middle, and the lower half otherwise |
| LatLngToGeoHash.Counted | src/Converter/LatLngToGeoHash.php:40-66 | after n passes, five bits per written character plus the pending bits make n |
| LatLngToGeoHash.Finished | src/Converter/LatLngToGeoHash.php:40 | the loop stops at the twelfth character, after exactly 60 passes, holding the encoding |
| LatLngToGeoHash.AfterMeaning | src/Converter/LatLngToGeoHash.php:25-66 | after n passes the box is the replay of the first n bits; the axis flag is the parity of n; the hash and index hold those bits |
| LatLngToGeoHash.GatherStep | src/Converter/LatLngToGeoHash.php:62-66 | a bit joins the index, and the fifth one appends a letter and resets the counter and index to 0 |
| LatLngToGeoHash.EncodeInAlphabet | src/Converter/LatLngToGeoHash.php:12 | the hash has 12 characters, every one from the alphabet |
| LatLngToGeoHash.EncodeContainsPoint | src/Converter/LatLngToGeoHash.php:30-58 | every prefix of the hash replays to a box containing the point |
| LatLngToGeoHash.ToStringIsShorterHash | src/Dtos/GeoHash.php:30-35 | rendering an encoded point at precision p gives the encoding at min(getPrecision(p), 12) characters |
| GeoHashToLatLng.Run | src/Converter/GeoHashToLatLng.php:23-66 | the nested loops compute the rounded middle of the box that the hash's bits replay to |
| GeoHashToLatLng.ReadChar | src/Converter/GeoHashToLatLng.php:38-56 | the inner loop feeds the character's five bits, most significant first, alternating axes |
| GeoHashToLatLng.MaskBit | src/Converter/GeoHashToLatLng.php:39 | the mask `1 << (4 - j)` picks bit j of the five, most significant first |
| GeoHashToLatLng.FeedsReplay | src/Converter/GeoHashToLatLng.php:40-55 | the decoder's walk is the encoder's replay of the same bits; the flag, set at the start, flips with each bit |
| GeoHashToLatLng.Rounded | src/Converter/GeoHashToLatLng.php:59-63 | each rounded coordinate is within half a unit of its kept digits from the box's middle |
| GeoHashToLatLng.DecodeEmpty | src/Converter/GeoHashToLatLng.php:35 | the empty hash decodes to (0, 0) |
| GeoHashToLatLng.DecodeByValues | src/Converter/GeoHashToLatLng.php:37 | hashes whose characters have the same alphabet positions decode alike |
| GeoHashToLatLng.UnknownCharDecodesAsZero | src/Converter/GeoHashToLatLng.php:37 | a character outside the alphabet is not rejected and decodes like '0' |
| GeoHashToLatLng.DecodeNear | src/Converter/GeoHashToLatLng.php:59-63 | a point in a hash's box is within half the box plus the rounding of the decoded point |
| GeoHashToLatLng.EncodeDecode | src/Converter/GeoHashToLatLng.php:23-66 | decoding the encoder's hash gives a point within half the final box plus the rounding of the original |
| LatLngToDms.Convert | src/Converter/LatLngToDMS.php:45-52 | degree <= c < degree + 1; minutes in 0..59; seconds in [0, 60); degree + minutes/60 + seconds/3600 == c |
| LatLngToDms.ConvertNegative | src/Converter/LatLngToDMS.php:47 | the degree is a signed floor: -12.5 gives -13° 30' 0" |
| LatLngToDms.SecondsBounds | src/Converter/LatLngToDMS.php:25-28 | shown seconds lie in [0, 60]; they are untouched for precision < 0, and otherwise within half a unit of the exact seconds |
| LatLngToDms.SecondsReachSixty | src/Converter/LatLngToDMS.php:25-28 | rounding never carries into the minutes: 0°59'59.99…" at precision 0 shows 59' 60" |
| LatLngToDms.LatitudeReadsBack | src/Converter/LatLngToDMS.php:32-42 | the latitude's half of the text reads back as the latitude, to within the shown precision |
| LatLngToDms.LongitudeReadsBack | src/Converter/LatLngToDMS.php:32-42 | the longitude's half reads back as the longitude, to within the shown precision |
| LatLngToDms.AfterComma | src/Converter/LatLngToDMS.php:33 | the longitude's half follows the latitude's half and ", " |
| LatLngToDms.RunHemispheres | src/Converter/LatLngToDMS.php:37-41 | the latitude's half ends with N iff latitude >= 0; the whole text ends with E iff longitude >= 0 |
| LatLngToDdm.Convert | src/Converter/LatLngToDDM.php:43-49 | degree <= c < degree + 1; minutes in [0, 60); degree + minutes/60 == c |
| LatLngToDdm.ConvertNegative | src/Converter/LatLngToDDM.php:45 | the degree is a signed floor: -12.25 gives -13° 45', and 12.25 gives 12° 15' |
| LatLngToDdm.MinutesBounds | src/Converter/LatLngToDDM.php:25-28 | shown minutes lie in [0, 60]; they are untouched for precision < 0, and otherwise within half a unit |
| LatLngToDdm.MinutesReachSixty | src/Converter/LatLngToDDM.php:25-28 | rounding never carries into the degrees: 0.99999 at precision 2 shows 0° 60.00' |
| LatLngToDdm.LatitudeReadsBack | src/Converter/LatLngToDDM.php:32-40 | the latitude's half of the text reads back as the latitude, to within the shown precision |
| LatLngToDdm.LongitudeReadsBack | src/Converter/LatLngToDDM.php:32-40 | the longitude's half reads back as the longitude, to within the shown precision |
| LatLngToDdm.AfterComma | src/Converter/LatLngToDDM.php:33 | the longitude's half follows the latitude's half and ", " |
| LatLngToDdm.RunHemispheres | src/Converter/LatLngToDDM.php:36-39 | the latitude's half ends with N iff latitude >= 0; the text ends with E iff longitude >= 0 |
| LatLngToUtm.InitialZoneRange | src/Converter/LatLngToUTM.php:56-59 | a longitude of [-180, 180) lies in zone 1..60, within 3° of the zone's central meridian |
| LatLngToUtm.BandIndexRange | src/Converter/LatLngToUTM.php:53 | the band index is a position of the 21 band letters iff -80 <= latitude < 88 |
| LatLngToUtm.BandInRange | src/Converter/LatLngToUTM.php:15-54 | in range, the band is the letter at the index, and the index is 9 or less iff latitude < 0 |
| LatLngToUtm.BandOutOfRange | src/Converter/LatLngToUTM.php:54 | the lookup is unguarded: -96 <= latitude < -80 reads "X" from the end, and latitude >= 88 reads "" |
| LatLngToUtm.BandLetters | src/Converter/LatLngToUTM.php:15 | in range, the band is X iff latitude >= 72, and V iff 56 <= latitude < 64 |
| LatLngToUtm.AdjustZone | src/Converter/LatLngToUTM.php:59-90 | the chain of exceptions yields the declared exception zone, with the central meridian (zone - 1) * 6 - 177 |
| LatLngToUtm.ExceptionZoneStep | src/Converter/LatLngToUTM.php:62-90 | the zone moves by at most one, only for zone 31 in band V or zones 32, 34, 36 in band X |
| LatLngToUtm.NorwayZones | src/Converter/LatLngToUTM.php:62-65 | in band V between 0° and 12°E the zone is 31 below 3°E and 32 from there |
| LatLngToUtm.SvalbardZones | src/Converter/LatLngToUTM.php:67-90 | in band X between 0° and 42°E the zone is 31, 33, 35 or 37, split at 9°, 21° and 33°E |
| LatLngToUtm.SvalbardSkipsEvenZones | src/Converter/LatLngToUTM.php:67-90 | in band X no point is left in zone 32, 34 or 36 |
| LatLngToUtm.ZoneCoversLongitude | src/Converter/LatLngToUTM.php:56-90 | after the exceptions the zone is in 1..60, with its central meridian less than 6° away |
| LatLngToUtm.FalseEastingAlways | src/Converter/LatLngToUTM.php:166 | the easting is 500 000 m plus k0 times the projected easting, for every point |
| LatLngToUtm.FalseNorthingBySign | src/Converter/LatLngToUTM.php:167-169 | 10 000 000 m is added to the northing exactly when the latitude, and so the projected northing, is negative |
| LatLngToUtm.UtmPrecision | src/Converter/LatLngToUTM.php:171 | the converter keeps any given precision of 0 or more |
| LatLngToUtm.DefaultPrecisions | src/Converter/LatLngToUTM.php:171 | the converter's default is 9 decimals while the value objects' is 6; they agree on every p >= 0 |
| LatLngToUtm.RoundGridClose | src/Converter/LatLngToUTM.php:173-174 | rounding keeps zone and band, and moves easting and northing by at most half a unit |
| LatLngToUtm.Run | src/Converter/LatLngToUTM.php:44-182 | the converter writes the `{zone}{band} {x} {y}` text of the rounded, offset grid reference |
| UtmToLatLng.BandHemisphere | src/Converter/UTMToLatLng.php:84-85 | in range, the corrected test is southern iff latitude < 0; the test as written is southern iff latitude < 8 |
| UtmToLatLng.FirstPosition | src/Converter/UTMToLatLng.php:18 | each band letter is found at its own position, except that the second X is found at the first |
| UtmToLatLng.UnknownBandIsSouth | src/Converter/UTMToLatLng.php:84-85 | a band that is no band letter is not rejected: `false <= 10` counts it as southern |
| UtmToLatLng.FalseEastingRemoved | src/Converter/UTMToLatLng.php:83 | an easting of 500 000 m maps to x = 0, the central meridian |
| UtmToLatLng.FalseNorthingRemoved | src/Converter/UTMToLatLng.php:86 | 10 000 000 m is taken off the northing exactly for a southern band |
| UtmToLatLng.RoundTrip | src/Converter/UTMToLatLng.php:144-148 | with the corrected hemisphere test, the forward grid reference of any point of [-80, 88) converts back to the point |
| UtmToLatLng.AsWrittenAgrees | src/Converter/UTMToLatLng.php:84-85 | for every band but N, the inverse as written and the corrected inverse give the same point |
| UtmToLatLng.RoundTripAsWritten | src/Converter/UTMToLatLng.php:84-86 | as written, the forward grid reference of a point of [-80, 88) converts back to the point iff the point is outside 0°N to 8°N |
| UtmToLatLng.RoundTripAsWrittenFailsInBandN | src/Converter/UTMToLatLng.php:85 | as written, no point from 0°N to 8°N survives the round trip |
| UtmToLatLng.BandNExample | src/Converter/UTMToLatLng.php:85 | 4°N 15°E gets band "N"; under the swap kernel the inverse as written returns a latitude below -10 000 000, and the corrected inverse returns the point exactly |
| Coordinates.DefaultIsOrigin | src/Dtos/Coordinate.php:19-23 | the default coordinate is (0, 0), and the getters return the constructor's arguments |
| Coordinates.UtmTextTokens | src/Dtos/Coordinate.php:27 | splitting a UTM text on spaces gives exactly the zone-and-band token, the easting and the northing |
| Coordinates.HeadReadsBack | src/Dtos/Coordinate.php:28-29 | the zone is the first token without its last character, as an int, and the band is that last character |
| Coordinates.ParseUtmReadsBack | src/Dtos/Coordinate.php:27-31 | parsing a UTM value's text gives its zone and band, and its easting and northing to within the shown precision |
| Coordinates.ParseUtmExact | src/Dtos/Coordinate.php:27-31 | a text of non-negative grid values written in full parses back to the same UTM value |
| Coordinates.ParseUtmOfConverter | src/Dtos/Coordinate.php:27-31 | parsing the forward converter's text gives its rounded grid reference |
| Coordinates.FromUtmRoundTrip | src/Dtos/Coordinate.php:25-38 | `fromUTM` of `format(UTM)` gives back the coordinate rounded half-down to six decimals with its sign, so each axis is within half a millionth of a degree, when the grid values need no more decimals than shown |
| Coordinates.FromUtmRoundTripExact | src/Dtos/Coordinate.php:25-38 | a coordinate with at most six decimals per axis comes back from `fromUTM` of `format(UTM)` exactly, under the same conditions |
| Coordinates.FromUtmRoundTripBandAsWritten | src/Dtos/Coordinate.php:25-38 | with the source's hemisphere test, `fromUTM` of `format(UTM)` gives the six-decimal coordinate outside 0°N to 8°N; from 0°N to 8°N the inverse it reads back does not return the point |
| Coordinates.FromUtmTokensAsWrittenIsOrigin | src/Dtos/Coordinate.php:35-37 | reading tokens 1 and 3 of the LatLng text with `(float)`, as written, reads the hemisphere letters and gives (0, 0) for every grid reference |
| Coordinates.FormatReadsLatitude | src/Dtos/Coordinate.php:55-62 | `format(DMS)` and `format(DDM)` pass the stored latitude and the precision unchanged: the text reads back as the latitude |
| Coordinates.FormatReadsLongitude | src/Dtos/Coordinate.php:55-62 | after the latitude's half and ", ", the DMS and DDM texts read back as the stored longitude, to within the shown precision |

## Left out

- The Krüger series, the conformal latitude, the `atan2`/`asinh` steps and the
  Newton iteration of both UTM converters are not modelled. They are floating-point
  trigonometry, passed in as `Kernels.project` and `Kernels.unproject`. The model
  only assumes what `Inverts`, `Bijective` and `PreservesHemisphere` say, and only
  where a lemma requires it.
- The geohash decoder's digit count `(2 - log(width)) / M_LN10` is `Kernels.hashDigits`.
- The dead `gamma` and `k` computations of the forward converter, and the
  commented-out code of the inverse one, have no effect on the output.
- Floating-point doubles are not modelled. Every number is an exact real.
- `round(…, PHP_ROUND_HALF_DOWN)` is exact half-down rounding, and `%.pf` is
  half-up rendering of the real. Digits that a double would show differently are
  not captured.
- `(int)` casts of floats are not modelled. The zone, degrees and minutes are
  whole reals turned into `int` without the 64-bit range limit.
- `Strings.ParseFloat` reads a sign, digits and a decimal point only. The
  exponent form of `(float)` is not modelled, because nothing in the core writes it.
- The degree sign is one character where PHP's UTF-8 string holds two bytes.
  Byte offsets are not modelled.
- `LatLng::convert` passes the value object to converters that take two floats.
  `Coordinate::fromUTM` calls the inverse converter with four scalars and splits
  its result. The model takes the evident intent:
  - the LatLng conversions to DMS, DDM and UTM value objects are the parameters
    `BaseCoordinate.Conversions`;
  - `fromUTM` builds a UTM value from the four parsed fields. The LatLng the
    inverse returns is written at the default six decimals and split at its
    spaces, as in the source. `Coordinates.FromUtm` reads the two magnitudes and
    signs them by their hemisphere letters, which is the signed six-decimal result
    tests/Dtos/CoordinateTest.php:66-67 expects; the source's own reading of
    tokens 1 and 3 is the Findings row for Coordinate.php:37.
- `CoordinateFormat::LatLng` is referenced by `UTM::convert` and
  `GeoHash::convert` but is not declared. The model's `Format` has the case, and
  `CoordinateFormat.Declared` excludes it wherever the enumeration itself is
  meant (`cases`, `values`, `toString`, `Coordinate::format`).
- The service provider, the console command, the `coordinates()` helper and the
  test bootstrap are framework wiring with no logic.
- Coordinates.FromUtmRoundTrip: goes through the corrected hemisphere test and the
  corrected token reading, which `Coordinates.FromUtm` uses. Only grid values that
  are non-negative and need no more decimals than the precision shows are covered.
  A rounded text parses back only to within half a unit (Coordinates.ParseUtmReadsBack).
- Coordinates.FromUtmRoundTripBandAsWritten: does not restate the iff of
  `UtmToLatLng.RoundTripAsWritten` for the six-decimal result. From 0°N to 8°N it
  states that the inverse misses the point, not that the rounded read-back differs
  from the rounded coordinate, because two points closer than half a millionth of
  a degree read back the same.
- BaseCoordinate.ConvertUtmRoundTrip: goes through the corrected inverse, which
  `BaseCoordinate.Convert` uses and which has no as-written counterpart there; with
  the source's test the round trip fails from 0°N to 8°N (UtmToLatLng.RoundTripAsWritten).
- DtoReaders.DmsReadsBack: a hemisphere is any string, and one holding a space
  would split into two words, so the hemispheres are taken without spaces.
- DtoReaders.DdmReadsBack: the same restriction on the hemispheres.
- UtmToLatLng.RoundTrip: stated for latitudes of [-80, 88), where the band letter
  exists. Outside, the band is "X" or "", and the hemisphere test need not match.
- GeoHashToLatLng.EncodeDecode: states distance bounds relative to the final box
  and the kernel's digit count, not fixed decimal strings.
- LatLngToDms.LatitudeReadsBack and LatLngToDdm.LatitudeReadsBack: read the text
  back through the model's own readers and the unpadded degrees. The exact digits
  of PHP's `sprintf` on doubles are not stated.

## Findings

| source | as written | input that shows it | evidently intended | confidence | as-written member | corrected member |
|---|---|---|---|---|---|---|
| src/Converter/UTMToLatLng.php:85 | `$indexLetter <= 10` counts band N (position 10, 0°N to 8°N) as southern | 4°N 15°E gives 33N; converting back takes 10 000 000 m off the northing and lands some 10 000 km south | positions 0 to 9 (C to M) are southern | not executed | UtmToLatLng.RoundTripAsWrittenFailsInBandN | UtmToLatLng.RoundTrip |
| src/Dtos/DMS.php:115 | `str_pad` pads the signed longitude degrees, so -5 becomes "0-5" (DDM.php:93 does the same); -10 and below are already three characters and are left alone | a DMS value with longitude degrees -5 renders "0-5°…", which reads back as 0° | a three-wide field with the zero after the sign, as `%03d` writes it: "-05" | not executed | DtoReaders.DmsReadsBack | DtoReaders.DmsCorrectedReadsBack |
| src/Dtos/Coordinate.php:37 | `(float) $coordinate[1]` and `(float) $coordinate[3]` read the second and fourth tokens of the LatLng text, which are the hemisphere letters | any grid reference: the LatLng text has the form "52.516253° N 13.377625° E", tokens 1 and 3 are "N" or "S" and "E" or "W", and `(float)` of each is 0, so the result is (0, 0) | tokens 0 and 2, signed by the letters: 52.516253 and 13.377625, as tests/Dtos/CoordinateTest.php:66 expects | not executed | Coordinates.FromUtmTokensAsWrittenIsOrigin | Coordinates.FromUtmRoundTrip |

`Dtos.DmsToString` and `Dtos.DdmToString` are the source's renderings, and
`BaseCoordinate.ToString` uses them. `Dtos.DmsToStringCorrected` and
`Dtos.DdmToStringCorrected` write the `%03d` field instead, and `Dtos.PadDegreesAgree`
shows that the two differ only for longitude degrees -9 to -1.

`UtmToLatLng.Run`, and `BaseCoordinate.Convert` and `Coordinates.FromUtm` built on
it, use the corrected hemisphere test. `UtmToLatLng.RunAsWritten` has the source's
test, `Coordinates.FromUtmBandAsWritten` is `fromUTM` with that test, and
`UtmToLatLng.RoundTripAsWritten` states exactly which points the two treat
differently. `Coordinates.FromUtmTokensAsWritten` is `fromUTM` reading tokens 1
and 3 as the source does; `Coordinates.FromUtm` reads tokens 0 and 2 and the
hemisphere letters.
