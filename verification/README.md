# GPX Tools: track thinning, GPX/GeoJSON conversion and map set-up in Dafny

This project models the core of GPX Tools, a browser application that loads GPX
track files, lets the user thin out their track points, and writes the result
back as GPX. The model covers these parts:

- **The thinning engine** (`TrackThinning`, from `src/utils/trackThinning.ts`).
  - Three policies: every n-th point, a minimum time gap, or a minimum distance.
    Each one always keeps the first and the last point of a track.
  - Track statistics, and the "interval" and "duration" display formatters.
- **The thinning control panel** (`ThinningControls`, from
  `src/components/ThinningControls.tsx`).
  - The predefined option tables.
  - The parsers for custom input: "1/N" strides, "1h30m" / "45s" / bare-minute
    times, and distances in m, km, cm or mm.
  - The radio-button handler, the selected-button function `getCurrentValue`,
    and the input validity check.
- **The thinning page** (`ThinningPage`, from `src/pages/ThinningPage.tsx`): how
  the selected options are applied to every LineString feature of the loaded
  collection.
- **The GPX parser's tree logic** (`Gpx`, `GpxParser`, from `src/utils/gpxParser.ts`).
  - Dropping empty segments and empty tracks.
  - Choosing the file's `createdAt` as the earliest point time.
  - The date sort of files and the total track count.
- **The GeoJSON converter** (`GeoJsonConverter`, from `src/utils/geoJsonConverter.ts`),
  in both directions.
  - GPX files to LineString features: one per segment of more than one point.
  - Features back to GPX: grouped into one track per file name, in first-appearance order.
- **The thinning map** (`ThinningMap`, from `src/components/ThinningMap.tsx`): the
  start and end markers of each feature, and the initial view (bounding-box
  centre and zoom).

Foreign code is passed in as a parameter:

- the geodesic distance of Turf: `dist`, in kilometres;
- JavaScript's date parsing: `parse`, which gives milliseconds or `None` for NaN;
- JavaScript number-to-string conversion: `num`;
- the GPX header that embeds the current clock time: `header`.

Supporting modules:

- `Wrappers` (`Option`);
- `Geo` (`Coord`, as `[lon, lat]`);
- `Text`: the character-level helpers the parsers need, such as trimming,
  lower-casing, digit runs, decimal literals and integer rendering.

## Model

| member | source | states |
|---|---|---|
| TrackThinning.ThinBySequence | src/utils/trackThinning.ts:20-45 | a track of at most two points comes back unchanged; otherwise the result holds (n-2)/interval + 2 entries: positions 0, interval, 2·interval, … of coordinates and timestamps, then the last coordinate and the last timestamp |
| TrackThinning.ThinBySequenceOneIsIdentity | src/utils/trackThinning.ts:35-42 | a stride of 1 keeps every point of a paired track |
| TrackThinning.ThinBySequenceCoarse | src/utils/trackThinning.ts:35-42 | a stride that reaches the last index keeps only the first and last point |
| TrackThinning.StrideCount | src/utils/trackThinning.ts:35 | the loop visits exactly (n-2)/interval interior indices |
| TrackThinning.AssembleIsSubtrack | src/utils/trackThinning.ts:29-44 | first point, kept interior points in increasing order, last point: an order-preserving paired subsequence of 2..n entries with both ends kept |
| TrackThinning.GreedyUnique | src/utils/trackThinning.ts:67-81 | the greedy "keep the first accepted candidate after the last kept point" selection is unique, so the loop's output is its only solution |
| TrackThinning.GreedyFacts | src/utils/trackThinning.ts:110-119 | a greedy selection is increasing and interior; each kept index is accepted against the one before it; every skipped index is rejected against the kept point that opens its gap |
| TrackThinning.ThinByTime | src/utils/trackThinning.ts:50-88 | a short track comes back unchanged; otherwise the kept interior indices are exactly the greedy selection of points at least intervalMinutes·60000 ms after the last kept time |
| TrackThinning.ThinByTimeSpacing | src/utils/trackThinning.ts:73-80 | in the output, every kept interior point has a valid time at least the interval after the previous kept point's valid time |
| TrackThinning.ThinByTimeKeepsOnlyStamped | src/utils/trackThinning.ts:68-71 | an interior point with a null, undefined or empty timestamp is never kept |
| TrackThinning.ThinByTimeWithoutReference | src/utils/trackThinning.ts:65-71 | with no valid time at point 0, only the first and last point are kept |
| TrackThinning.ThinByDistance | src/utils/trackThinning.ts:93-126 | a short track comes back unchanged; otherwise the kept interior indices are exactly the greedy selection of points at least distanceMeters/1000 km from the last kept point |
| TrackThinning.ThinByDistanceSpacing | src/utils/trackThinning.ts:108-119 | consecutive kept interior points are at least the threshold apart |
| TrackThinning.ThinByDistanceSkipsNear | src/utils/trackThinning.ts:110-119 | every dropped interior point is closer than the threshold to the kept point that precedes it |
| TrackThinning.ThinIsAssembled | src/utils/trackThinning.ts:29-44 | each policy's result on three or more points is the first point, some increasing interior selection, and the last point |
| TrackThinning.ThinKeepsEndpointsAndOrder | src/utils/trackThinning.ts:25-27 | for every policy: at most two points come back unchanged; a longer paired track comes back as a paired, order-preserving subsequence keeping both end points |
| TrackThinning.WholeIsSubtrack | src/pages/ThinningPage.tsx:50-54 | the untouched track (the 'none' policy) also satisfies the subtrack property |
| TrackThinning.ValidTimesFirst | src/utils/trackThinning.ts:149-152 | the first entry of the valid-time list is the time of the first stamp that parses |
| TrackThinning.ValidTimesLast | src/utils/trackThinning.ts:149-152 | the last entry of the valid-time list is the time of the last stamp that parses |
| TrackThinning.ValidTimesEmpty | src/utils/trackThinning.ts:149-152 | the valid-time list is empty exactly when no stamp parses |
| TrackThinning.CalculateTrackStats | src/utils/trackThinning.ts:131-179 | point count; distance 0 below two points, else the path length; start and end are the first and last parseable stamps, absent exactly when none parses; duration is end - start (0 for one time); average interval is duration / (valid count - 1), only with at least two times |
| TrackThinning.JsRound | src/utils/trackThinning.ts:187 | Math.round: the integer r with r - 0.5 <= x < r + 0.5 |
| TrackThinning.JsRoundUnique | src/utils/trackThinning.ts:187 | any integer within that half-open window is the rounding result |
| TrackThinning.JsRem | src/utils/trackThinning.ts:264-265 | JavaScript's % has the sign of the dividend, magnitude below the divisor, and differs from the dividend by a multiple of the divisor |
| TrackThinning.IntervalParts | src/utils/trackThinning.ts:184-198 | null gives unknown; seconds below 59.5 s, minutes from 59.5 s to below 3599.5 s, hours from there, with the shown amount within rounding distance of the true value |
| TrackThinning.FormatTimeInterval | src/utils/trackThinning.ts:184-198 | '不明' exactly for null; otherwise the rounded amount followed by 秒, 分 or 時間 |
| TrackThinning.DurationSplit | src/utils/trackThinning.ts:262-265 | for non-negative seconds, 3600·hours + 60·minutes + seconds rebuilds the total with minutes below 60 |
| TrackThinning.DurationParts | src/utils/trackThinning.ts:259-273 | null gives unknown; at least an hour shows hours and minutes, at least a minute shows minutes and seconds that add up to the total, less shows seconds; a negative duration shows a non-positive remainder of seconds |
| TrackThinning.FormatDuration | src/utils/trackThinning.ts:259-273 | '不明' exactly for null; otherwise hours and minutes, minutes and seconds, or seconds alone |
| ThinningControls.KindOfName | src/components/ThinningControls.tsx:122-126 | the radio prefix names exactly one kind, and naming it back gives the prefix |
| ThinningControls.ParseSequenceInput | src/components/ThinningControls.tsx:43-53 | a result is positive and is the value of the digits of a trimmed "1/<digits>" text |
| ThinningControls.ParseSequenceOfDigits | src/components/ThinningControls.tsx:43-53 | "1/<digits>" with surrounding white space parses to the digits' value when it is positive, and is rejected when it is zero |
| ThinningControls.ParseSequenceRoundTrip | src/components/ThinningControls.tsx:43-53 | rendering a stride n as "1/n" and parsing it gives n back, and 0 is rejected |
| ThinningControls.ParseSequenceOtherNumeratorRejected | src/components/ThinningControls.tsx:44 | every "<n>/<d>" of digit strings with n other than "1" ("2/4", "01/5") is rejected |
| ThinningControls.ParseSequenceWithoutPrefix | src/components/ThinningControls.tsx:43-52 | any input whose trimmed text does not begin with "1/" gives null |
| ThinningControls.MatchValue | src/components/ThinningControls.tsx:60-62 | the regular-expression match for a unit is absent exactly when the text holds no digit run followed by that unit (m not followed by s) |
| ThinningControls.ParseTimeInput | src/components/ThinningControls.tsx:55-83 | a result is positive and equals the total minutes read from the trimmed, lower-cased text; no result means that total is not positive |
| ThinningControls.ParseTimeHoursMinutes | src/components/ThinningControls.tsx:60-69 | "<h>h<m>m" parses to 60h + m minutes |
| ThinningControls.ParseTimeSeconds | src/components/ThinningControls.tsx:62-72 | "<s>s" parses to s/60 minutes |
| ThinningControls.ParseTimeBareNumber | src/components/ThinningControls.tsx:74-80 | a bare number is read as minutes |
| ThinningControls.ParseTimeMillisecondsRejected | src/components/ThinningControls.tsx:61-81 | "<n>ms" is rejected for every n: the lookahead refuses the minute match, no digit precedes the 's', and the text is not a plain decimal |
| ThinningControls.SplitUnit | src/components/ThinningControls.tsx:87-90 | the text splits into a number part and a recognised unit suffix (possibly empty) that concatenate back to it |
| ThinningControls.ParseDistanceInput | src/components/ThinningControls.tsx:85-107 | a result is non-negative and comes from a text that is a number followed by m, km, cm, mm or nothing |
| ThinningControls.ParseDistanceComplete | src/components/ThinningControls.tsx:87-103 | every decimal literal followed by a recognised unit parses to its value converted to metres |
| ThinningControls.ParseDistanceNat | src/components/ThinningControls.tsx:90-102 | a whole number without a unit is read as metres |
| ThinningControls.ParseCustom | src/components/ThinningControls.tsx:129-139 | every value a custom field parses to is a usable option: a whole stride of at least 1, a positive time, a non-negative distance |
| ThinningControls.HandleRadioChange | src/components/ThinningControls.tsx:116-154 | 'none' sets no thinning with a null value |
| ThinningControls.HandlePresetRadio | src/components/ThinningControls.tsx:147-151 | a predefined button "<type>-<value>" sets that type and value |
| ThinningControls.HandleValueRadio | src/components/ThinningControls.tsx:147-151 | any other value after the dash is read with parseInt |
| ThinningControls.HandleCustomRadio | src/components/ThinningControls.tsx:124-146 | a custom button parses its field and emits options exactly when parsing succeeds, and emits nothing otherwise |
| ThinningControls.GetCurrentValue | src/components/ThinningControls.tsx:180-195 | 'none' exactly for no thinning or a null value; the custom button exactly when the value is not in the kind's table; otherwise the button of the matching table entry |
| ThinningControls.PresetRoundTrip | src/components/ThinningControls.tsx:116-195 | clicking a predefined button selects that same button again |
| ThinningControls.NoneRoundTrip | src/components/ThinningControls.tsx:119-120 | clicking 'none' selects 'none' again |
| ThinningControls.CustomRoundTrip | src/components/ThinningControls.tsx:124-146 | clicking a custom button emits options exactly when its field parses, and these select the custom button exactly when the parsed value is not predefined |
| ThinningControls.HandleCustomInputChange | src/components/ThinningControls.tsx:156-178 | the edited field takes the text, the other fields are unchanged, and options are emitted exactly when the text parses, with the parsed value |
| ThinningControls.IsCustomInputValid | src/components/ThinningControls.tsx:197-211 | an empty field is valid; otherwise the field is valid exactly when it parses |
| ThinningControls.ValidInputEmits | src/components/ThinningControls.tsx:197-211 | a non-empty field is shown as valid exactly when clicking its custom button would emit options |
| ThinningControls.RenderedRadioIsValid | src/components/ThinningControls.tsx:21-40 | every button the panel renders emits only usable options |
| ThinningPage.PolicyOf | src/pages/ThinningPage.tsx:54-69 | no policy exactly for type 'none' or a null value; otherwise sequence, time and distance select the matching thinning function with the value as parameter |
| ThinningPage.ValidOptionsHaveWholeStride | src/pages/ThinningPage.tsx:57-60 | options the controls emit always give a whole stride |
| ThinningPage.ProcessFeature | src/pages/ThinningPage.tsx:49-86 | every field other than coordinates and timeStamps is kept; timeStamps is always present; without a policy the feature keeps its points; otherwise coordinates and timestamps are the policy's result |
| ThinningPage.ProcessedGeoJsonData | src/pages/ThinningPage.tsx:46-92 | null exactly without loaded data; otherwise the collection keeps its other fields and feature count, and each feature is processed in place |
| ThinningPage.UnthinnedKeepsFeatures | src/pages/ThinningPage.tsx:50-54 | without thinning every feature keeps its coordinates and timestamps, an absent array becoming empty |
| ThinningPage.ProcessedKeepsEndpointsAndOrder | src/pages/ThinningPage.tsx:49-73 | every processed feature is a thinning of its input: short tracks unchanged, longer paired tracks an order-preserving paired subsequence with both end points |
| ThinningPage.ProcessedWithoutTimestamps | src/pages/ThinningPage.tsx:51 | a feature without timeStamps keeps its end points, gets only missing stamps, and under the time policy keeps nothing but its end points |
| GpxParser.FilterMembers | src/utils/gpxParser.ts:52-59 | the kept elements are exactly the members that pass the test |
| GpxParser.FilterConcat | src/utils/gpxParser.ts:27-60 | filtering distributes over concatenation, so each input element is decided on its own |
| GpxParser.BuildTracks | src/utils/gpxParser.ts:27-60 | every kept track has segments and every kept segment has points; every decoded track with a non-empty segment appears with its non-empty segments |
| GpxParser.BuildTracksConcat | src/utils/gpxParser.ts:27-60 | tracks are built independently and in document order |
| GpxParser.BuildTracksTimes | src/utils/gpxParser.ts:52-72 | dropping empty segments and tracks loses no point time: the kept tree lists the same times as the decoded one |
| GpxParser.InvalidDateSticks | src/utils/gpxParser.ts:67-68 | once the running earliest time is an Invalid Date, nothing replaces it |
| GpxParser.EarliestTimeSpec | src/utils/gpxParser.ts:62-72 | no time exactly when no point has one; an Invalid Date as the first timed point stays; otherwise the result is the minimum of the valid times |
| GpxParser.ParseTree | src/utils/gpxParser.ts:24-78 | the file keeps its name, holds the filtered tracks, and has as createdAt the earliest point time, absent exactly when no point has a time |
| GpxParser.ComparatorIsKeyOrder | src/utils/gpxParser.ts:95-102 | the comparator orders dated files by time and places undated files after them, ties exactly on equal keys |
| GpxParser.InsertionSort | src/utils/gpxParser.ts:95 | a permutation of its input, sorted by key, with the files of each key in their original order |
| GpxParser.SortByDate | src/utils/gpxParser.ts:94-103 | a permutation where dated files come first in ascending time and files with equal dates, or without dates, keep their input order |
| GpxParser.SortSortedIsIdentity | src/utils/gpxParser.ts:94-103 | sorting already sorted files changes nothing |
| GpxParser.TotalTrackCountConcat | src/utils/gpxParser.ts:105-107 | the count of a concatenation is the sum of the counts |
| GpxParser.TotalTrackCountOfSort | src/utils/gpxParser.ts:94-107 | sorting does not change the total track count |
| GeoJsonConverter.PointCoord | src/utils/geoJsonConverter.ts:30-33 | a point becomes [lon, lat] |
| GeoJsonConverter.SegmentCoordinates | src/utils/geoJsonConverter.ts:30-33 | a segment becomes its points' [lon, lat] in order |
| GeoJsonConverter.DefaultLabelsDiffer | src/utils/geoJsonConverter.ts:43 | two tracks with an absent or empty name at different indices get different "Track N" labels |
| GeoJsonConverter.SegmentFeatures | src/utils/geoJsonConverter.ts:28-50 | every feature describes a segment of more than one point of this track, and the features are in segment order |
| GeoJsonConverter.SegmentFeaturesComplete | src/utils/geoJsonConverter.ts:28-50 | every segment of this track with more than one point gets a feature |
| GeoJsonConverter.TrackFeatures | src/utils/geoJsonConverter.ts:27-51 | the same soundness and order for all segments of the remaining tracks of a file |
| GeoJsonConverter.TrackFeaturesComplete | src/utils/geoJsonConverter.ts:27-51 | every long segment of the remaining tracks of a file gets a feature |
| GeoJsonConverter.FileFeatures | src/utils/geoJsonConverter.ts:26-52 | the same soundness and order for all tracks of the remaining files |
| GeoJsonConverter.FileFeaturesComplete | src/utils/geoJsonConverter.ts:26-52 | every long segment of the remaining files gets a feature |
| GeoJsonConverter.ConvertGpxToGeoJson | src/utils/geoJsonConverter.ts:23-58 | every feature describes a segment of more than one point: its coordinates, file name, track name or "Track N" label, and indices; features are in file, track, segment order; every such segment is emitted |
| GeoJsonConverter.ConvertCount | src/utils/geoJsonConverter.ts:29 | there is exactly one feature per segment of more than one point |
| GeoJsonConverter.GroupFeaturesSpec | src/utils/geoJsonConverter.ts:71-80 | the groups have distinct file names, each holds exactly that file's features in order, every feature's file has a group, and groups are in first-appearance order |
| GeoJsonConverter.GroupStep | src/utils/geoJsonConverter.ts:74-79 | adding one feature to a correct grouping gives a correct grouping of the longer list |
| GeoJsonConverter.PositionPoint | src/utils/geoJsonConverter.ts:91-93 | writing [lon, lat] as lat= / lon= and reading the point back gives the same position |
| GeoJsonConverter.ConvertGeoJsonToTracks | src/utils/geoJsonConverter.ts:60-105 | one track per file group, named after the file, with one segment per feature whose points read back as the feature's coordinates |
| GeoJsonConverter.ConvertPointCount | src/utils/geoJsonConverter.ts:83-102 | the written GPX holds exactly as many points as the features have coordinates |
| GeoJsonConverter.ConvertGeoJsonToGpx | src/utils/geoJsonConverter.ts:60-105 | the text starts with the header and ends with '</gpx>' |
| GeoJsonConverter.ConvertNoFeatures | src/utils/geoJsonConverter.ts:104 | with no feature the text is the header followed by the footer |
| ThinningMap.TrackMarkers | src/components/ThinningMap.tsx:118-148 | an empty feature has no marker, one point gives a start marker, more give a start at the first and an end at the last point |
| ThinningMap.CreatePointFeatures | src/components/ThinningMap.tsx:105-155 | every marker is the start or end of its feature, markers are ordered by feature and start before end, and every feature's start and (with two points or more) end marker is present |
| ThinningMap.MarkerCount | src/components/ThinningMap.tsx:118-149 | the number of markers is the sum over features of min(points, 2) |
| ThinningMap.Bounds | src/components/ThinningMap.tsx:33-46 | no box exactly without coordinates; otherwise every coordinate is inside and each side of the box is attained by some coordinate |
| ThinningMap.ZoomFor | src/components/ThinningMap.tsx:50-59 | one of 15, 12, 9, 7: 15 exactly below 0.01°, 12 exactly on [0.01°, 0.1°), 9 exactly on [0.1°, 1°), 7 exactly from 1° |
| ThinningMap.ZoomMonotone | src/components/ThinningMap.tsx:55-59 | a larger extent never gives a closer zoom |
| ThinningMap.InitialViewState | src/components/ThinningMap.tsx:30-75 | the Tokyo default without coordinates; otherwise the bounding-box centre with the zoom of its larger side |
| ThinningMap.CentreInsideBounds | src/components/ThinningMap.tsx:46-65 | the centre lies inside the bounding box, and coincident points get zoom 15 |

## Left out

- File reading, `DOMParser` XML decoding, the parse-error branches and the React
  state plumbing are not modelled. The GPX parser starts from decoded tracks
  (`GpxParser.DecodedTrack`) whose point attributes are already numbers.
- `parseFloat` of coordinates and elevations is not modelled: numbers are exact
  reals. NaN coordinates and the `isFinite` guard of the map's bounds are
  therefore not modelled, and every coordinate is assumed finite.
- Distances and path length (Turf's `distance` and `length`) are the `dist`
  parameter. Date parsing is the `parse` parameter (`Instant` in the GPX tree).
- Floating-point rounding of the times, distances and unit conversions is not
  modelled: times are integer milliseconds and values are exact reals.
- `formatDistance`, `formatDateTime` and `formatTimeRange` are not modelled. They
  format through locale-dependent `toLocaleString` / `toFixed`, which lie outside
  the model.
- GeoJsonConverter.ConvertGeoJsonToGpx: states only the header and footer around
  the tracks. The text in between is built from `num` (JavaScript number
  rendering, a parameter); its structure is stated on `ConvertGeoJsonToTracks`.
  The header holds `new Date().toISOString()`, so it is a parameter too.
- GeoJsonConverter.TrackText: the file name goes into `<name>` without XML
  escaping, as in the source. Escaping is not modelled.
- GpxParser.SortByDate: requires that no file has an Invalid Date `createdAt`. On
  such files the source comparator returns NaN and the order is
  implementation-defined.
- ThinningPage.PolicyOf: requires a whole stride of at least one
  (`StrideIsWhole`). For any other value, `thinBySequence`'s loop would not
  terminate or would read outside the track. The controls never emit such a
  value (`ThinningControls.RenderedRadioIsValid`, `ThinningControls.ParseCustom`).
- ThinningControls.HandleRadioChange: emits nothing for radio values the panel
  never renders. These are an unknown type prefix, or a value without a dash.
  For them the source would emit options carrying that unknown type, or a NaN
  value. A non-numeric suffix is read by `Text.ParseInt`, which gives no value
  where `parseInt` gives NaN.
- Text.Lower: `toLowerCase` is modelled for A-Z and the Kelvin sign (U+212A,
  which lower-cases to 'k'). These are the only characters whose lower case is
  one of the letters the time and distance patterns test. Other case mappings
  are left out; they cannot change whether a pattern matches.
- The map rendering, layer styles and error handler of `ThinningMap.tsx` are
  presentation and are left out.
