# Chevereto uploader, modelled in Dafny

This project models ShareX's Chevereto image uploader
(`ShareX.UploadersLib/ImageUploaders/Chevereto.cs`) and proves what it promises.
It covers four pieces:

- **The configuration check.** `CheckConfig` accepts a configuration only when a Chevereto endpoint is present and both its upload URL and API key are non-empty.
- **One upload.** `Chevereto.Upload` builds the request: the form fields `key` and `format=json`, and the image in the file field `source`. It then fills the `UploadResult` in place from the decoded reply. `URL` becomes the direct or the viewer address, as `DirectURL` says. `ThumbnailURL` is set only when the reply has a thumbnail.
- **The diagnostic runner.** `Chevereto.TestUploaders` probes every registry entry once, in order, and appends each one to `successful` or `failed`. It sorts the successful entries by upload time with LINQ's stable `OrderBy`, then formats a report.
- **Entry rendering.** `CheveretoTest.ToString` renders an entry as `Name (Tms)` when it has a time, and as the bare name otherwise.

The project has six modules:

| file | module | contents |
|---|---|---|
| `wrappers.dfy` | `Wrappers` | `Option` |
| `text.dfy` | `Text` | nullable strings, `string.IsNullOrEmpty`, decimal rendering of a non-negative integer with its inverse, `string.Join` |
| `linq.dfy` | `Linq` | a stable ascending `OrderBy`, and a proof that stability and ascending order determine its result |
| `config.dfy` | `UploaderConfig` | the configuration records and `CheckConfig` |
| `upload.dfy` | `CheveretoUploads` | reply shapes, request construction, reply mapping, the `UploadResult` and `Chevereto` classes |
| `diagnostics.dfy` | `CheveretoDiagnostics` | `CheveretoTest`, the probing loop, the two lists it builds, the report, and lemmas about them |

Some things the model takes as inputs instead of computing them:

- **The HTTP exchange.** `UploadData` is a function parameter, from the request to the result fields it returns.
- **The URL scheme fix-up.** `URLHelpers.FixPrefix` is a function parameter.
- **JSON decoding.** `JsonConvert.DeserializeObject` is a function parameter. For a given body it either returns an object or `null` (`Parsed`), or it throws (`Malformed`).
- **Each probe's outcome.** For `TestUploaders`, every registry entry comes with a `Probe`: either the probe threw, or `Upload` returned a result (possibly `null`) after a number of milliseconds. `ProbeOf` ties a probe to `Upload`'s own model.
- **Entry names.** `CheveretoUploader.ToString` is the parameter `nameOf`.

**Malformed reply body.** `JsonConvert.DeserializeObject` throws on malformed JSON, and `Upload` does not catch the exception, so `MapResponse` yields `Raised`. Only a body that decodes to `null`, or to an object without `Image`, is treated leniently. Inside `TestUploaders` the exception is caught and the entry is recorded as failed (`ProbeOf`, `ThrowingProbeIsContained`).

## Model

| member | source | states |
|---|---|---|
| UploaderConfig.CheckConfig | ShareX.UploadersLib/ImageUploaders/Chevereto.cs:42-46 | true exactly when the configuration has a Chevereto endpoint whose upload URL and API key are both present and non-empty |
| CheveretoUploads.UploadArguments | ShareX.UploadersLib/ImageUploaders/Chevereto.cs:89-91 | exactly two form fields with distinct names: `key` carries the endpoint's API key and `format` carries `json` |
| CheveretoUploads.MapResponse | ShareX.UploadersLib/ImageUploaders/Chevereto.cs:95-112 | `IsSuccess` and the body never change; a failed transfer comes back untouched; an exception escapes exactly when the transfer succeeded and the body does not decode; a `null` reply, or one without `Image`, leaves the success as it was; with an `Image`, `URL` is `Image.URL` under `DirectURL` and `Image.URL_Viewer` otherwise, and `ThumbnailURL` is `Thumb.URL` when there is a `Thumb` and keeps its value otherwise; a null URL or thumbnail is filled in only under those conditions |
| CheveretoUploads.Chevereto.constructor | ShareX.UploadersLib/ImageUploaders/Chevereto.cs:78-85 | the uploader keeps its endpoint, and `DirectURL` starts off |
| CheveretoUploads.Chevereto.Upload | ShareX.UploadersLib/ImageUploaders/Chevereto.cs:87-113 | sends the `source` file field and the two arguments to the fixed-up upload URL, and updates the returned result in place; it raises exactly when `MapResponse` does, and otherwise the result's fields are the mapped fields |
| CheveretoDiagnostics.ToString | ShareX.UploadersLib/ImageUploaders/Chevereto.cs:176-190 | a negative upload time, including the default -1, renders the bare name; otherwise the name, then ` (`, then a canonical decimal numeral that reads back as the upload time, then `ms)` |
| CheveretoDiagnostics.TestUploaders | ShareX.UploadersLib/ImageUploaders/Chevereto.cs:115-157 | the loop's report equals `Report` of the `Successful` and `Failed` lists for the whole registry; the loop invariant is that after `i` entries both lists are those of the first `i` entries |
| CheveretoDiagnostics.PartitionCount | ShareX.UploadersLib/ImageUploaders/Chevereto.cs:127-151 | every registry entry lands in exactly one list: the two counts add up to the registry's size |
| CheveretoDiagnostics.SuccessCountIsWorking | ShareX.UploadersLib/ImageUploaders/Chevereto.cs:127-156 | the success count in the header is the number of probes that work, and the failure count is the number of all other probes |
| CheveretoDiagnostics.SuccessfulConcat | ShareX.UploadersLib/ImageUploaders/Chevereto.cs:127-141 | probing two stretches of the registry one after the other concatenates their successful lists, so each entry is classified independently of the others |
| CheveretoDiagnostics.FailedConcat | ShareX.UploadersLib/ImageUploaders/Chevereto.cs:127-151 | the same for the failed lists |
| CheveretoDiagnostics.ThrowingProbeIsContained | ShareX.UploadersLib/ImageUploaders/Chevereto.cs:147-151 | a probe that throws at position `i` adds its entry to `failed` in its place; the entries before and after it are classified exactly as they would be on their own, so the pass goes on |
| CheveretoDiagnostics.SuccessfulEntries | ShareX.UploadersLib/ImageUploaders/Chevereto.cs:138-141 | an entry is in `successful`, with its measured time, exactly when its result is non-null, succeeded and has a non-empty URL (both directions) |
| CheveretoDiagnostics.FailedEntries | ShareX.UploadersLib/ImageUploaders/Chevereto.cs:138-150 | an entry is in `failed`, with the default time, exactly when its probe threw or its result is null, failed or has an empty URL (both directions) |
| CheveretoDiagnostics.SuccessfulMeasured | ShareX.UploadersLib/ImageUploaders/Chevereto.cs:134-140 | every successful entry carries a non-negative time |
| CheveretoDiagnostics.FailedUnmeasured | ShareX.UploadersLib/ImageUploaders/Chevereto.cs:176-179 | every failed entry keeps the default time -1 |
| CheveretoDiagnostics.ReportListing | ShareX.UploadersLib/ImageUploaders/Chevereto.cs:155-156 | the report gives the two counts, which add up to the registry's size. Successful entries come in non-decreasing time order, with the entries of each time in registry order, each as `Name (Tms)`. Failed entries come in registry order, each as its bare name |
| CheveretoDiagnostics.ReportCounts | ShareX.UploadersLib/ImageUploaders/Chevereto.cs:155-156 | the failure count in the header is the registry's size minus the success count |
| CheveretoDiagnostics.SortedLines | ShareX.UploadersLib/ImageUploaders/Chevereto.cs:181-186 | every line of the sorted successful listing is `Name (Tms)` with a non-negative time |
| CheveretoDiagnostics.FailedLines | ShareX.UploadersLib/ImageUploaders/Chevereto.cs:181-189 | every line of the failed listing is the entry's bare name |
| CheveretoDiagnostics.ProbeOf | ShareX.UploadersLib/ImageUploaders/Chevereto.cs:131-138 | a probe of a fresh `Chevereto` (viewer URLs) throws exactly when the transfer succeeded and the body does not decode; it works exactly when the transfer succeeded, the body decoded, and the URL it ends with is non-empty (the viewer URL when an `Image` came back, else the transport's URL) |
| CheveretoDiagnostics.ThreeEndpointReport | ShareX.UploadersLib/ImageUploaders/Chevereto.cs:115-157 | with A working in 120 ms, B failing and C working in 40 ms, the report counts 2 and 1, lists C's line before A's, and lists B |
| CheveretoDiagnostics.ThreeEndpointLineC | ShareX.UploadersLib/ImageUploaders/Chevereto.cs:183-185 | C at 40 ms renders as `C (40ms)` |
| CheveretoDiagnostics.ThreeEndpointLineA | ShareX.UploadersLib/ImageUploaders/Chevereto.cs:183-185 | A at 120 ms renders as `A (120ms)` |
| Linq.Insert | ShareX.UploadersLib/ImageUploaders/Chevereto.cs:156 | inserting into an ascending list keeps it ascending, adds exactly one element, and puts the new element before every element already holding its key |
| Linq.OrderBy | ShareX.UploadersLib/ImageUploaders/Chevereto.cs:156 | the result is ascending by key and a permutation of the input, and for every key its elements keep their input order (stability) |
| Linq.StableOrderIsUnique | ShareX.UploadersLib/ImageUploaders/Chevereto.cs:156 | any two ascending orderings that keep each key's elements in the same order are equal, so the stable ordering is unique |
| Text.NatToString | ShareX.UploadersLib/ImageUploaders/Chevereto.cs:185 | the decimal rendering of an integer is a canonical numeral (digits only, no leading zero except in "0") that reads back as that integer |
| Text.CanonicalRoundTrip | ShareX.UploadersLib/ImageUploaders/Chevereto.cs:185 | every canonical numeral is the rendering of its own value, so rendering is a bijection onto canonical numerals |

## Left out

- The HTTP exchange (`UploadData`) is a function parameter. Multipart encoding, the stream's bytes and network failures are not modelled beyond the result fields the transfer returns.
- `URLHelpers.FixPrefix` and `JsonConvert.DeserializeObject` are function parameters. Their own behaviour is not part of this model.
- The `Stopwatch` is not modelled. Each probe's elapsed milliseconds are an input.
- The random file name (`Helpers.GetRandomAlphanumeric`) is not modelled. It only names the upload and does not affect classification.
- The sample logo, its PNG encoding and the `MemoryStream` are not modelled. This includes the reuse of one stream across all probes without rewinding it.
- `DebugHelper.WriteException` is not modelled. It is a logging side effect only.
- The concrete URLs and keys of the `Uploaders` registry are not modelled. The registry is the `uploaders` sequence parameter.
- `CreateUploader` is not modelled. It only constructs a `Chevereto` with `DirectURL` set from the configuration.
- `CheveretoUploader.ToString` is the parameter `nameOf`. How the name is built is not part of this model.
- The fields of `UploadResult` that `Chevereto.cs` neither reads nor writes are not modelled.
- `CheveretoDiagnostics.ToString`: the 64-bit `long` upload time is an unbounded `int`. No overflow is modelled, because an elapsed time in milliseconds cannot reach 2^63.
- `Text.NatToString`: culture-specific digit formatting is not modelled. The rendering uses ASCII digits, as the invariant and current cultures do for integers.
