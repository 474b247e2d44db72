# Itinerary builder: editing model and PDF pagination

This project models the logic inside the single-file React itinerary builder
(`src/App.js`).

- **Trip document.** The editor holds trip metadata, an ordered list of day
  plans (each owning its hotel bookings), a payment schedule, and the inclusion
  and exclusion lists.
- **Editing.** Every edit is an immutable array operation keyed by a
  client-generated id:
  - append a day or payment;
  - delete by id (`filter`);
  - set one field by id (`map`);
  - append a hotel to one day;
  - parse the comma-separated list fields;
  - parse the `departure → arrival` route field.
- **PDF export.** The preview is rendered to a raster W×H pixels in size. The
  raster is scaled to the width of an A4 page (ISO 216, 210 mm by 297 mm). It is
  then either placed on one page or cut into full-width slices of a page's worth
  of rows, one slice per page. The file is saved under a name derived from the
  trip title.

Modules:

- `Text` (`text.dfy`): the JavaScript string operations the component relies
  on. These are the `\s` class, `trim`, `split` on one character, `join` and
  `replace(/\s+/g, "_")`, with the ECMAScript whitespace set.
- `Keyed` (`keyed.dfy`): generic `filter`/`map` by identity over a sequence,
  with the key read through a projection.
- `Itinerary` (`itinerary.dfy`): the document model and every editing operation,
  as pure functions from the old state to the new one.
- `PdfExport` (`pdf_export.dfy`): the export arithmetic in exact reals, the slice
  loop as a `while` loop, and the file-name rule. The jsPDF document is
  represented by the sequence of calls made on it: `AddImage(x, y, width, height,
  rows)` and `AddPage`.

## Model

| member | source | states |
|---|---|---|
| Text.Trim | src/App.js:306 | `trim` gives a string with no whitespace at either end. It is the substring that starts after the leading whitespace and loses only whitespace at each end. A string already trimmed is unchanged. |
| Text.TrimIdempotent | src/App.js:306 | Trimming twice is the same as trimming once. |
| Text.TrimAllSpace | src/App.js:306 | A piece that is all whitespace trims to the empty string. |
| Text.TrimPadded | src/App.js:306 | Whitespace added around a trimmed string is exactly what `trim` removes. |
| Text.Split | src/App.js:306 | `split(",")` yields one more piece than there are separators, no piece contains the separator, and joining the pieces with the separator rebuilds the input. |
| Text.SplitCons | src/App.js:306 | A separator-free prefix followed by a separator becomes the first piece, followed by the pieces of the rest. |
| Text.SplitNoSeparator | src/App.js:306 | Text without the separator splits into itself alone. |
| Text.SplitJoin | src/App.js:304-306 | Joining a non-empty list of separator-free parts and splitting again gives the parts back. |
| Text.CollapseSpaces | src/App.js:159 | `replace(/\s+/g, "_")` leaves no whitespace, never lengthens the string, and keeps a non-empty string non-empty. |
| Text.CollapseNoSpace | src/App.js:159 | A title without whitespace is left unchanged. |
| Text.CollapseRun | src/App.js:159 | A non-empty run of whitespace of any length becomes exactly one `_`. |
| Text.CollapseAppend | src/App.js:159 | The replacement works piece by piece whenever the cut is not inside a whitespace run. |
| Text.CollapseWords | src/App.js:159 | Non-empty words without whitespace, joined by single spaces, come out joined by `_`. |
| Keyed.CountKeyZero | src/App.js:75-77 | No element carries the id exactly when the count of elements carrying it is zero. |
| Keyed.RemoveKey | src/App.js:75-77 | `filter(x => x.id !== id)` removes one element per match and leaves no element with that id. |
| Keyed.RemoveKeyContents | src/App.js:75-77 | The filter result is drawn from the input in order as a subsequence. Every element with another id survives, and filtering out an id nobody has changes nothing. |
| Keyed.UpdateKey | src/App.js:78-80 | `map(x => x.id === id ? f(x) : x)` keeps the length and applies `f` to exactly the matching positions. |
| Keyed.RemoveKeyKeepsUnique | src/App.js:75-77 | Filtering preserves uniqueness of ids. |
| Keyed.RemoveKeyAppend | src/App.js:75-77 | Filtering distributes over concatenation. |
| Keyed.RemoveKeyAt | src/App.js:75-77 | With unique ids, filtering out the id found at position k removes exactly that element. |
| Itinerary.SetField | src/App.js:79 | `{ ...x, [key]: value }` sets the named text field, leaves every other field as it was, and keeps the id, index and hotels. |
| Itinerary.SetFieldTwice | src/App.js:79 | Setting the same field to the same value twice is the same as setting it once. |
| Itinerary.SetPaymentField | src/App.js:85 | `{ ...x, [key]: val }` sets the named payment field, leaves the other field, and keeps the id. |
| Itinerary.MakeEmptyDay | src/App.js:26-35 | A new day carries the supplied id and index, with every text field empty and no hotels. |
| Itinerary.InitialDays | src/App.js:37-41 | The initial state is three empty days numbered 1, 2, 3, with the given ids and no hotels. |
| Itinerary.AddDay | src/App.js:72-74 | `addDay` appends one empty day, numbered one past the old length, and leaves all earlier days unchanged. |
| Itinerary.AddDayKeepsUnique | src/App.js:72-74 | Appending a day with a fresh id preserves unique ids. |
| Itinerary.AddDayKeepsIndexing | src/App.js:72-74 | If every stored index equals its position, that still holds after `addDay`. |
| Itinerary.RemoveDay | src/App.js:75-77 | `removeDay` leaves no day with the id. It shortens the list by exactly the number of days carrying the id, and the result is a subsequence of the input containing every other day. So it keeps every other day unchanged, in the original order, including repeated copies, and nothing else. An absent id is the identity. |
| Itinerary.RemoveDayKeepsUnique | src/App.js:75-77 | Deleting a day preserves unique ids. |
| Itinerary.RemoveDayAt | src/App.js:75-77 | With unique ids, deleting the id of the day at position k drops exactly that day. |
| Itinerary.RemoveThenAddRepeatsIndex | src/App.js:72-77 | Stored indices are not renumbered. Deleting day 1 of the initial three and adding a day leaves two days whose stored index is 3. |
| Itinerary.UpdateDay | src/App.js:78-80 | `updateDay` keeps the length, ids, indices and hotels. It sets the named field on exactly the days with the id and leaves every other field and every other day unchanged. |
| Itinerary.UpdateDayIdempotent | src/App.js:78-80 | Repeating the same update changes nothing more. |
| Itinerary.RemoveAfterUpdate | src/App.js:75-80 | Editing a day and then deleting it is the same as deleting it. |
| Itinerary.QuickEdit | src/App.js:163-166 | A cancelled prompt changes nothing. Otherwise the entered text becomes the field's value on the days with the id. Those days keep their id, index, hotels and every other field, and all other days are unchanged. |
| Itinerary.TextOrEmpty | src/App.js:507-510 | `prompt(...) \|\| ""` is the entered text, or the empty string when the prompt was cancelled. |
| Itinerary.NightsOf | src/App.js:511 | `prompt("Nights") \|\| 1` keeps the typed text exactly when it is non-empty; otherwise it is the number 1. |
| Itinerary.AddHotel | src/App.js:505-521 | With an empty hotel name the days are unchanged. Otherwise exactly the day with the id gets the new booking appended after its existing hotels, and every other day is unchanged. |
| Itinerary.AddHotelAt | src/App.js:512-519 | With unique ids, the handler's `map` changes only the day at position k, and it changes it to that day plus the new booking. |
| Itinerary.HotelTableSize | src/App.js:559 | The bookings table `days.flatMap(d => d.hotels)` has one row per booking, summed over the days. |
| Itinerary.HotelTableAppend | src/App.js:559 | The table of two lists of days is the first table followed by the second. |
| Itinerary.TableWithHotel | src/App.js:559 | Adding a booking to one day inserts its row right after that day's existing rows. |
| Itinerary.AddHotelTable | src/App.js:559 | After adding a hotel to the day at position k, the table is the rows up to and including that day, then the new booking, then the later rows. |
| Itinerary.AddDayKeepsTable | src/App.js:559 | Adding a day leaves the bookings table unchanged. |
| Itinerary.UpdateDayKeepsTable | src/App.js:559 | Editing a text field leaves the bookings table unchanged. |
| Itinerary.RemoveDayTable | src/App.js:559 | Deleting the day at position k removes exactly its rows from the table. |
| Itinerary.AddPayment | src/App.js:81-83 | `addPayment` appends one payment with the supplied id and empty amount and due date, leaving earlier payments unchanged. |
| Itinerary.AddPaymentKeepsUnique | src/App.js:81-83 | Appending a payment with a fresh id preserves unique ids. |
| Itinerary.RemovePayment | src/App.js:87-89 | `removePayment` leaves no payment with the id. It shortens the list by exactly the number of payments carrying the id, and the result is a subsequence of the input containing every other payment. So it keeps every other payment unchanged and in order, including identical records, and nothing else. An absent id is the identity. |
| Itinerary.RemovePaymentAt | src/App.js:87-89 | With unique ids, deleting the id at position k drops exactly that payment. |
| Itinerary.UpdatePayment | src/App.js:84-86 | `updatePayment` keeps the length and ids. It sets the named field on exactly the matching payments and leaves everything else unchanged. |
| Itinerary.TrimAll | src/App.js:306 | `map(s => s.trim())` trims each piece in place: same count, and each result is the trimmed form of its piece. |
| Itinerary.ParseList | src/App.js:305-307 | The inclusions/exclusions field gives exactly (commas + 1) items. No item contains a comma or has whitespace at either end, and each is its comma-separated piece with only whitespace cut off. |
| Itinerary.ParseCons | src/App.js:306 | A padded comma-free item followed by a comma parses to that item followed by the items of the rest. |
| Itinerary.ParsePaddedList | src/App.js:304-306 | Leading whitespace before the shown list text does not change what it parses to. |
| Itinerary.ParseListText | src/App.js:304-306 | Re-parsing the shown text `items.join(", ")` of a non-empty list of trimmed, comma-free items gives the same list. |
| Itinerary.ParseEmptyText | src/App.js:304-306 | An empty list is shown as empty text, which parses back to one empty item, not to the empty list. |
| Itinerary.SetRoute | src/App.js:271-277 | The route handler changes only departure and arrival. Each becomes its trimmed `→`-separated piece when that piece is present and non-empty, and otherwise keeps its old value. Without an arrow the arrival never changes. |
| Itinerary.RouteTextPieces | src/App.js:270-272 | The shown route text splits on the arrow into the two padded places. |
| Itinerary.RouteTextParts | src/App.js:270-272 | The shown route text splits and trims back into the two places. |
| Itinerary.RouteRoundTrip | src/App.js:270-277 | Submitting the shown route text unchanged leaves the metadata unchanged, when neither place has surrounding whitespace or contains the arrow. |
| PdfExport.ScaleFactor | src/App.js:113-119 | The scale factor is positive and maps the canvas width exactly onto 210 mm. |
| PdfExport.ScaledHeightExact | src/App.js:113-120 | The scaled height of h rows is non-negative and equals exactly 210·h / w millimetres. |
| PdfExport.FitsOnePageExact | src/App.js:125 | The one-page test `scaledImgHeightMm <= 297` holds exactly when 210·h ≤ 297·w. |
| PdfExport.PageSliceRows | src/App.js:129 | `canvasPageHeightPx` is ⌊297·w / 210⌋, which is at least 1 for any width of at least 1 pixel, so each slice makes progress. |
| PdfExport.SlicesShape | src/App.js:131-156 | The slices cover rows position..h without gap or overlap. Each starts before h and is `min(P, h - start)` rows high, so every slice but the last is exactly P rows. |
| PdfExport.TilesContiguous | src/App.js:131-154 | Covering without gaps, slice by slice: the first starts at the origin, each later one starts where its predecessor ended, the last ends at h, and the heights sum to the rows covered. |
| PdfExport.SlicesCount | src/App.js:131-156 | The loop makes ⌈(h − position) / P⌉ slices: the fewest slices of P rows that cover the remaining rows. |
| PdfExport.SlicesPartition | src/App.js:131-156 | From row 0 the slices partition [0, h). They start at 0, are contiguous and positive, sum to h, are all exactly P rows except the last, and number ⌈h / P⌉. |
| PdfExport.MultiPageHasTwoSlices | src/App.js:125-136 | A canvas that does not fit one page is cut into at least two slices. |
| PdfExport.PagesShape | src/App.js:150-155 | The page sequence draws exactly the slices, in order. It calls `addPage` once fewer than it draws, and images and page breaks alternate, starting and ending with an image. |
| PdfExport.PagesCounts | src/App.js:150-155 | The images drawn are the slices, and there are one fewer page breaks than images. |
| PdfExport.PagesAt | src/App.js:150-155 | Images sit at the even call positions and page breaks at the odd ones. |
| PdfExport.SliceWithinPage | src/App.js:151-153 | A slice of at most P rows is placed at the page width and no taller than the page. |
| PdfExport.OnePageLayout | src/App.js:125-126 | The one-page branch draws all rows as a single image at the top-left corner and the page width, no taller than the page, with no `addPage`. |
| PdfExport.MultiPageLayout | src/App.js:127-156 | The multi-page branch draws at least two images that partition the rows, with one `addPage` fewer than images, each image within its page. |
| PdfExport.SliceStep | src/App.js:136-155 | One pass of the loop body appends the next slice's image, plus a page break if rows remain, and keeps the loop invariant. |
| PdfExport.SliceLoop | src/App.js:131-156 | The `while` loop issues exactly the calls of the recursive slicing definition: images of consecutive slices, separated by `addPage`. |
| PdfExport.ExportPages | src/App.js:109-157 | The export makes one image exactly when the scaled canvas fits the page, and otherwise the sliced sequence. The images always partition the canvas rows, `addPage` is called once fewer than `addImage`, and every image lies within its page. |
| PdfExport.FileName | src/App.js:159 | The saved name ends in `.pdf` and contains no whitespace. An empty title gives `itinerary.pdf`, a title without whitespace is kept as it is, and otherwise the stem is the title with its whitespace runs collapsed. |
| PdfExport.FallbackName | src/App.js:159 | The fallback stem `itinerary` contains no whitespace, so the replacement leaves it unchanged. |
| PdfExport.ExampleTitleCollapses | src/App.js:159 | "My Singapore Trip" collapses to "My_Singapore_Trip". |
| PdfExport.FileNameExample | src/App.js:159 | "My Singapore Trip" is saved as "My_Singapore_Trip.pdf". |
| PdfExport.TallCanvasExample | src/App.js:125-156 | A 1000×1500 px canvas does not fit one page. At 1414 rows per page it becomes two slices, of 1414 and 86 rows. |
| PdfExport.ShortCanvasExample | src/App.js:125-126 | A 1000×500 px canvas fits on one page, 105 mm high. |

## Left out

- Rendering is not modelled, because it has no logic to verify. This covers the JSX, the embedded CSS, the Google-font `useEffect` and the preview markup.
- The browser and library calls are foreign I/O and are not modelled:
  - html2canvas rasterisation;
  - the temporary page canvas and its `drawImage`;
  - JPEG encoding through `toDataURL`;
  - jsPDF construction and `pdf.save`.

  The document is represented only by its sequence of `addImage`/`addPage` calls, and the canvas only by its pixel width and height.
- Floating-point rounding: every millimetre quantity is an exact real computed by the same formula. `Math.floor` is `Floor` of the exact value. For the 1000×500 px case, doubles also give exactly 105 mm. Doubles can differ from the exact value only by rounding, which matters only right at the `<= 297` one-page boundary or at an integer boundary of `Math.floor`.
- PdfExport.ExportPages: requires a canvas at least 1 pixel wide. With a zero-width canvas the source divides by zero. If that canvas has no rows, nothing is drawn. If it has rows, the slice height floors to 0 and the loop never advances.
- The missing-preview early return (nothing happens when no preview element is mounted) is not modelled, because it happens before any of the modelled logic.
- The dynamic imports and the asynchronous, possibly overlapping exports are left out, because they are not sequential logic.
- Id generation (`Date.now()`, `Math.random()`) is not modelled: ids are supplied as arguments. Ids are modelled as integers, although day ids in the source are fractional numbers. Only equality is used, so this does not matter.
- `prompt()` is not modelled; its result is an argument, either cancelled or the entered text.
- The single-field metadata setters for title, duration, travellers, start date and end date are left out. Each is a one-field record update with no further logic. The `Number(...)` conversion in some of them is not modelled either. The client and notes fields are only displayed; the component never edits them.
- Strings are sequences of Unicode scalar values, whereas JavaScript strings are sequences of UTF-16 code units. Every separator and whitespace character involved lies in the Basic Multilingual Plane, so the modelled operations agree on well-formed text. Lone surrogates are not modelled, and lengths such as the `CollapseSpaces` length bound count code points rather than code units.
- The rendering of stored day indices versus list positions is left out, because it is display only.
