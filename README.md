# NeoReport APOD core in Dafny

A model of the core of NeoReport, a React Native app that shows NASA's Astronomy Picture of the Day (APOD). The model covers:

- **the date the app asks for.** `getNASADate` takes the UTC date of the instant four hours before now. `fetchAPOD` clamps a selected date that lies after that date.
- **the cache-first fetch.** An entry in AsyncStorage under `apod_<date>` answers the fetch. Otherwise the picture is requested from NASA's API and stored only when the request succeeds. A failure sets the error text: the fixed not-found text for an HTTP 404, the error's message otherwise.
- **the date picker's confirm handler and the zoom buttons.** Zoom moves in steps of 2 and stays within 0 to 20.
- **the two API request builders.** These are `getAPOD(date = "")` and `getRandomAPODs(count = 10)`.
- **sharing.** `shareUtils` downloads the picture into the cache directory and opens the share sheet.
- **the save-to-gallery button.** It asks for permission, downloads remote images, creates the asset, and then creates the "NASA APOD" album with it or adds it to the existing album. Its toasts say "saved", "canceled" or "failed".

Modules:

- `Wrappers`: `Option` and `Result`.
- `Decimal`: digit strings.
- `Text`: `split`, `pop`, `startsWith`, `includes`.
- `Calendar`: the proleptic Gregorian calendar behind `toISOString()` and `new Date(s)`.
- `ApodData`: the APOD record and the text it is cached as.
- `ApodService`: `NeoReport/services/APOD.js`.
- `Notices`: alerts.
- `ApodViewer`: `NeoReport/components/APODViewer.js`.
- `ShareUtils`: `NeoReport/utils/shareUtils.js`.
- `ImageButton`: `NeoReport/components/buttons/ImageButton.js`.

Modelling choices:

- The clock is the parameter `nowMs` (milliseconds since 1970-01-01 UTC). `Date.now()` in the image button is the parameter `timestamp`.
- Each platform service is a function parameter that returns what its promise resolves to, or the message of the error it rejects with. This covers axios, `FileSystem`, `MediaLibrary` and `Share`.
- AsyncStorage is the class `ApodViewer.Storage`, which holds a map.
- Component state is the class fields of `ApodViewer.Viewer` and `ImageButton.SaveButton`. The methods on these classes update the fields the way the source's `set…` calls do.
- Alerts, toasts and platform calls are recorded as values: `Notices.Alert`, `ImageButton.Effect` and `ShareUtils.ShareRun`. Each handler's result is proved equal to a specification function.
- `JSON.stringify` and `JSON.parse` of the cached record become `ApodData.Encode` and `ApodData.Decode`. These are a length-prefixed text codec whose round trip is proved. The property the cache relies on is that reading back what was written gives the same record, and that holds for both.

## Model

| member | source | states |
|---|---|---|
| Calendar.DateOfDay | NeoReport/components/APODViewer.js:29-31 | Any day from year 0 to 9999 has a valid calendar date whose day number is that day. |
| Calendar.DateOfDayNumber | NeoReport/components/APODViewer.js:29-31 | Converting a valid date to its day number and back gives the same date. |
| Calendar.DayNumberOrder | NeoReport/components/APODViewer.js:52 | A date is earlier on the calendar exactly when its day number is smaller, so comparing parsed dates compares calendar order. |
| Calendar.FormatDate | NeoReport/components/APODViewer.js:31 | The date is written as ten characters with dashes at positions 4 and 7 and no `T`, so splitting at `T` keeps it whole. |
| Calendar.ParseFormat | NeoReport/components/APODViewer.js:52 | Parsing a formatted `YYYY-MM-DD` date gives back its day number. |
| Calendar.FormatParse | NeoReport/components/APODViewer.js:52 | A ten-character string the parser accepts is exactly the formatting of the date it parses to. |
| Calendar.ToIsoString | NeoReport/components/APODViewer.js:31 | The instant is written as 24 characters: its UTC date, `T`, its time of day and `Z`. |
| Calendar.ClockTextFields | NeoReport/components/APODViewer.js:31 | The hour, minute, second and millisecond fields are digits in range and add back up to the time of day. |
| Calendar.IsoDateOf | NeoReport/components/APODViewer.js:31 | The first piece of the ISO string split at `T` is the UTC date of the instant, and it parses to the instant's day. |
| Calendar.ParseDate | NeoReport/components/APODViewer.js:52 | `new Date(s)` for the date-only forms `YYYY`, `YYYY-MM` and `YYYY-MM-DD`. Whatever it accepts is a day in years 0 to 9999. A ten-character date must have dashes at positions 4 and 7. Together with ParseFormat and FormatParse, it accepts exactly the formatted dates among ten-character strings. |
| Calendar.DayOf | NeoReport/components/APODViewer.js:52 | A year, month and day give a day number exactly when they name a valid date, and that day lies in years 0 to 9999. |
| Calendar.DayOfDate | NeoReport/components/APODViewer.js:52 | The day a parsed year, month and day give converts back to that same date. |
| Calendar.Later | NeoReport/components/APODViewer.js:52 | `new Date(a) > new Date(b)`: both strings parse and the first day is greater. It is false when either is NaN. Its order properties are LaterStrictOrder. |
| Calendar.LaterStrictOrder | NeoReport/components/APODViewer.js:52 | The comparison is irreflexive, asymmetric and transitive, and it holds only between strings that both parse. |
| Calendar.IsoDateMonotone | NeoReport/components/APODViewer.js:29-31 | A later instant never has an earlier UTC date. |
| Text.Split | NeoReport/utils/shareUtils.js:13 | `split(sep)` always gives at least one piece. JoinSplit pins the pieces down as the separator-free parts that join back to the string. |
| Text.JoinSplit | NeoReport/utils/shareUtils.js:13 | Joining the pieces of `split` with the separator gives the string back, and no piece contains the separator. |
| Text.LastSegment | NeoReport/utils/shareUtils.js:13 | `split(sep).pop()` is a separator-free suffix that is either the whole string or follows the last separator. |
| Text.LastSegmentUnique | NeoReport/utils/shareUtils.js:13 | Only one suffix has that property, so `pop()` is determined by it. |
| Text.LastSegmentEmpty | NeoReport/components/buttons/ImageButton.js:32 | `pop()` is the empty string exactly when the string is empty or ends with the separator. This is when the file-name fallback applies. |
| Text.SplitFirstPiece | NeoReport/components/APODViewer.js:31 | The first piece of `split` on a string with a separator is the text before the first separator. |
| Text.StartsWith | NeoReport/components/buttons/ImageButton.js:36 | `startsWith(prefix)`: the prefix is no longer than the string and equals its leading characters. |
| Text.Includes | NeoReport/components/buttons/ImageButton.js:60-63 | `includes(sub)`, written as a search from the front. IncludesOccurrence states its meaning. |
| Text.IncludesOccurrence | NeoReport/components/buttons/ImageButton.js:60-63 | `includes(sub)` holds exactly when `sub` occurs at some position. |
| Decimal.ParseNatToString | NeoReport/components/APODViewer.js:66 | The decimal numeral of a length reads back to that length. |
| Decimal.ParsePad | NeoReport/components/APODViewer.js:31 | A zero-padded field reads back to its number. |
| ApodData.Encode | NeoReport/components/APODViewer.js:66 | The cached text of a record is never empty, so `if (cachedAPOD)` accepts what was stored. |
| ApodData.ReadFieldsOf | NeoReport/components/APODViewer.js:57 | Reading n fields from their encoding followed by any text gives those fields and that text. |
| ApodData.Decode | NeoReport/components/APODViewer.js:57 | Stands in for `JSON.parse` of a cache entry and gives none for a malformed one. DecodeEncode, DecodeOnlyEncodings and DecodeExactlyEncodings state what it accepts and returns. |
| ApodData.DecodeEncode | NeoReport/components/APODViewer.js:55-66 | Decoding the cached text of a record gives the record back. |
| ApodData.DecodeOnlyEncodings | NeoReport/components/APODViewer.js:57 | Any text `Decode` accepts is exactly the encoding of the record it returns. |
| ApodData.DecodeExactlyEncodings | NeoReport/components/APODViewer.js:55-66 | A text decodes to a record exactly when it is that record's encoding. |
| ApodData.EncodeInjective | NeoReport/components/APODViewer.js:66 | Distinct records are cached as distinct texts. |
| ApodService.GetApod | NeoReport/services/APOD.js:8-25 | The request goes to the APOD URL with `api_key` and `thumbs=true`. It has a `date` parameter exactly when the date is not empty, holding that date, and no other parameter. The result is the client's response or error, unchanged. |
| ApodService.GetRandomApods | NeoReport/services/APOD.js:28-42 | The request has exactly `api_key`, `count` and `thumbs=true`. The result is the client's response or error. |
| ApodService.DefaultArguments | NeoReport/services/APOD.js:8-28 | Without arguments, `getAPOD` sends no date and `getRandomAPODs` asks for 10. |
| ApodViewer.NasaDate | NeoReport/components/APODViewer.js:23-32 | NASA's date is ten characters and parses to the day of the instant four hours before now. |
| ApodViewer.NasaDateMonotone | NeoReport/components/APODViewer.js:23-32 | NASA's date never moves backwards as the clock advances. |
| ApodViewer.EffectiveDate | NeoReport/components/APODViewer.js:50-52 | The date looked up is never after NASA's date. It is the selected date when that is not later, and NASA's date otherwise. |
| ApodViewer.EffectiveDateIdempotent | NeoReport/components/APODViewer.js:50-52 | Clamping an already clamped date changes nothing. |
| ApodViewer.EffectiveDateStable | NeoReport/components/APODViewer.js:50-52 | A selected date that is not after NASA's date stays the date looked up at every later time. |
| ApodViewer.CacheKey | NeoReport/components/APODViewer.js:55 | The key is `apod_` followed by the date. |
| ApodViewer.CacheKeyInjective | NeoReport/components/APODViewer.js:55-66 | Distinct dates never share a cache key. |
| ApodViewer.CatchMessage | NeoReport/components/APODViewer.js:67-72 | The error text is the not-found text exactly for status 404, and the error's message otherwise. |
| ApodViewer.CacheHit | NeoReport/components/APODViewer.js:55-56 | `if (cachedAPOD)`: an entry counts only when it is present and not the empty string, following JavaScript's truthiness of the string `getItem` resolves to. |
| ApodViewer.Resolve | NeoReport/components/APODViewer.js:44-77 | The outcome of one `fetchAPOD()` from a cache and a previous record: the new cache, record and error, the date requested and the alert. Its properties are the lemmas CacheHitSkipsNetwork to FutureDateResolvesAsNasaDate, and Viewer.FetchApod is proved equal to it. |
| ApodViewer.CacheHitSkipsNetwork | NeoReport/components/APODViewer.js:54-59 | The network is asked exactly when the cache has no non-empty entry. On a hit the cache is untouched. The record becomes the decoded entry, or, if the entry is malformed, the record is kept and the error and alert are set. |
| ApodViewer.MissStoresSuccess | NeoReport/components/APODViewer.js:61-66 | On a miss with a successful response, the clamped date is fetched and the response becomes the record. It is stored under that date's key, every other key is unchanged, and there is no error or alert. |
| ApodViewer.MissFailureWritesNothing | NeoReport/components/APODViewer.js:67-73 | A failed request leaves the cache and the record as they were, shows the failure alert and sets the 404-dependent error text. |
| ApodViewer.OnlySuccessWritesCache | NeoReport/components/APODViewer.js:54-66 | The cache changes only by storing a successful response under the clamped date's key. |
| ApodViewer.RepeatFetchIsCacheHit | NeoReport/components/APODViewer.js:54-66 | After a successful network fetch, fetching the same date again is a cache hit with the same record, whatever the network would say. |
| ApodViewer.LaterFetchIsCacheHit | NeoReport/components/APODViewer.js:49-66 | A date not after NASA's date, once fetched successfully, is served from the cache at every later time. |
| ApodViewer.FailureDoesNotPoisonCache | NeoReport/components/APODViewer.js:61-73 | A failed fetch leaves the cache unchanged, so the next fetch of the date asks the network again and takes its success. |
| ApodViewer.FutureDateResolvesAsNasaDate | NeoReport/components/APODViewer.js:49-52 | Selecting a date after NASA's date behaves exactly as selecting NASA's date. |
| ApodViewer.ZoomIn | NeoReport/components/APODViewer.js:113 | For every integer, the result is the smaller of the value plus 2 and 20: no larger than either, and equal to one of them. |
| ApodViewer.ZoomOut | NeoReport/components/APODViewer.js:114 | For every integer, the result is the larger of the value minus 2 and 0: no smaller than either, and equal to one of them. |
| ApodViewer.PressStep | NeoReport/components/APODViewer.js:113-114 | One press keeps the zoom even and in [0, 20]. It moves the zoom by exactly 2, and leaves it unchanged only at the matching end. |
| ApodViewer.PressesStayReachable | NeoReport/components/APODViewer.js:40-114 | Any sequence of presses from the initial zoom stays even and in [0, 20]. |
| ApodViewer.IncreasesSaturate | NeoReport/components/APODViewer.js:113 | n increases add 2n, capped at 20. |
| ApodViewer.Storage.GetItem | NeoReport/components/APODViewer.js:55 | `getItem` gives the stored string, or none when the key is absent. |
| ApodViewer.Storage.SetItem | NeoReport/components/APODViewer.js:66 | `setItem` replaces the entry for the key and nothing else. |
| ApodViewer.Viewer.constructor | NeoReport/components/APODViewer.js:35-40 | The initial state: no record, loading, no error, the picker closed, NASA's date selected, zoom 0. |
| ApodViewer.Viewer.FetchApod | NeoReport/components/APODViewer.js:44-77 | The new cache, record and error, the date requested and the alert shown are exactly those the cache-first resolution gives from the old state. `loading` is false on every path. |
| ApodViewer.Viewer.HandleConfirm | NeoReport/components/APODViewer.js:80-84 | The selected date becomes the UTC date of the picked instant and the picker closes. |
| ApodViewer.Viewer.FontSizeIncrease | NeoReport/components/APODViewer.js:113 | The zoom becomes the zoom-in of its old value and stays even and in [0, 20]. |
| ApodViewer.Viewer.FontSizeDecrease | NeoReport/components/APODViewer.js:114 | The zoom becomes the zoom-out of its old value and stays even and in [0, 20]. |
| ShareUtils.ImageUri | NeoReport/utils/shareUtils.js:12 | The HD URL when it is present and non-empty, otherwise the URL. |
| ShareUtils.FileName | NeoReport/utils/shareUtils.js:13 | The file name is the part of the URI after its last `/`. |
| ShareUtils.ShareMessage | NeoReport/utils/shareUtils.js:24 | The message is the title, a blank line, then the explanation. |
| ShareUtils.ShareApod | NeoReport/utils/shareUtils.js:5-31 | Without a record: only the no-data alert. With a record: one download of the image into the cache directory. The share sheet opens exactly when the download succeeds, with the title, the message and the local URI. There is no alert exactly when sharing succeeds. Every alert is titled "Sharing Failed" and carries the message of the error that caused it: no data, the failed download or the rejected share. |
| ShareUtils.DownloadTarget | NeoReport/utils/shareUtils.js:12-19 | The download target is the cache directory followed by the image URI's final, slash-free segment. |
| ImageButton.FileName | NeoReport/components/buttons/ImageButton.js:32 | The file name is the URL's last segment when that is non-empty, otherwise `apod-<timestamp>.jpg`. It is never empty and never contains `/`. |
| ImageButton.Classify | NeoReport/components/buttons/ImageButton.js:60-67 | The toast is "Canceled" exactly when the message includes "denied" or "cancel", and the failure text otherwise. |
| ImageButton.ClassifyByOccurrence | NeoReport/components/buttons/ImageButton.js:60-67 | "Canceled" exactly when "denied" or "cancel" occurs at some position of the message. |
| ImageButton.SaveEffects | NeoReport/components/buttons/ImageButton.js:21-71 | The specification of the handler: the calls and messages of one run, in order. Its properties are the lemmas PermissionRefusedSavesNothing to EndsWithToast, and SaveButton.DownloadImageButtonHandler is proved equal to it. |
| ImageButton.SaveAsset | NeoReport/components/buttons/ImageButton.js:46-67 | The specification of the gallery steps: the asset, the album lookup, and then creating the album or adding the asset, each failure ending in its toast. SaveToGallery is proved equal to it. |
| ImageButton.PermissionRefusedSavesNothing | NeoReport/components/buttons/ImageButton.js:25-29 | If the status is not "granted", the run is the request and the permission alert, with no download, asset or album call. |
| ImageButton.DownloadOnlyForHttp | NeoReport/components/buttons/ImageButton.js:36-44 | With permission, a download happens exactly when the URL starts with "http", from the URL into the cache path. |
| ImageButton.NoDownloadInSaveAsset | NeoReport/components/buttons/ImageButton.js:46-54 | Saving to the gallery never downloads. |
| ImageButton.AssetSource | NeoReport/components/buttons/ImageButton.js:33-47 | The asset is created from the downloaded file's URI for "http" URLs, and from the cache path otherwise. |
| ImageButton.AtMostOneAlbumCall | NeoReport/components/buttons/ImageButton.js:48-54 | At most one album call is made. Once the asset and the lookup succeed, it creates the album with the asset when none was found, and adds the asset to the found album otherwise. |
| ImageButton.SaveAssetEndsInOneToast | NeoReport/components/buttons/ImageButton.js:46-67 | Saving to the gallery ends in exactly one toast: saved, canceled or failed. It is "Image saved" exactly when the asset, the lookup and the album call all resolve. |
| ImageButton.EndsWithToast | NeoReport/components/buttons/ImageButton.js:24-67 | A run that is not stopped by a refused permission ends in exactly one toast, with no earlier toast. It is "Image saved" exactly when permission is granted, a remote image downloads and every gallery call resolves. Otherwise it is the classification of the error. |
| ImageButton.SaveToGallery | NeoReport/components/buttons/ImageButton.js:46-56 | The imperative gallery steps make exactly the calls of the gallery specification. |
| ImageButton.SaveButton.constructor | NeoReport/components/buttons/ImageButton.js:17-18 | The button holds its image and is not loading. |
| ImageButton.SaveButton.DownloadImageButtonHandler | NeoReport/components/buttons/ImageButton.js:21-71 | The handler makes exactly the calls and messages of the save specification. `loading` is false afterwards on every path, including the early return. |

## Left out

- Rendering: the JSX, styles, the activity indicators, the image and video views, and the font-size arithmetic of the text styles. None of these decide state.
- `NeoReport/components/buttons/BorderedIconButtonClassic.js` and `NeoReport/screens/HomeScreen.js` are not part of this model. They are presentation only.
- `handleVideoPress` and `handleShare` in APODViewer.js are not part of this model. They only call into the browser or into `shareUtils`, which is modelled on its own.
- `console.error` logging is left out: it is I/O with no effect on state.
- Failures of AsyncStorage's `getItem` and `setItem` are not modelled: both are assumed to resolve. The catch block would treat such a failure like a network error.
- Asynchrony is not modelled. Only the state after each handler is modelled: the intermediate renders while `loading` is true, overlapping fetches, and the `useEffect` that triggers a fetch on every change of the selected date are left out.
- ApodViewer.NasaDate: uses the fixed four-hour offset of the source, so it has no daylight-saving rule. It requires a clock reading whose date falls in years 0 to 9999, because the extended `±YYYYYY` years of `toISOString` are not modelled.
- Calendar.IsoDateOf: requires an instant in years 0 to 9999; the extended-year output is not modelled.
- Calendar.ParseDate: handles only the date-only ISO forms `YYYY`, `YYYY-MM` and `YYYY-MM-DD`, which are all the app produces. Date-time strings and the engine-specific fallback formats of `new Date(s)` are treated as invalid (NaN). In that case the comparison on line 52 is false.
- ApodData.Decode: stands in for `JSON.parse` and accepts only texts `Encode` produces, with lengths written without leading zeros. Entries in any other format count as malformed. `MalformedEntryMessage` is a placeholder for the engine's own text of the parse error.
- The JSON encoding is replaced by a length-prefixed codec, so the bytes stored in the cache are not modelled. The fields of an APOD other than date, title, explanation, media type, URL, HD URL, copyright and thumbnail URL are left out.
- ApodViewer.Viewer.FontSizeIncrease and ApodViewer.Viewer.FontSizeDecrease: require the class invariant (zoom even and in [0, 20]). The source applies the same `Math.min`/`Math.max` to any value; the contracts of the functions `ZoomIn` and `ZoomOut` state that for every integer.
- Alerts and toasts are recorded as values and are not displayed. The toast duration argument is not modelled.
- The axios request is the `ApodService.Request` value. Its URL serialisation and the HTTP exchange are the client parameter's business; the API key's configuration source is a parameter.
