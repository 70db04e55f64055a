# ProductsManagement: the product-entry screen, modelled in Dafny

The application is one Android screen, `MainActivity`. On it a user fills in a product form:
- name, category and price
- an optional offer percentage
- a description
- a free-text, comma-separated size list

The user also picks colors with a color-picker dialog and images with the system image picker. The save menu item then does the following:
1. Checks the form.
2. Compresses every selected image to JPEG.
3. Uploads the compressed images to object storage.
4. Builds a product record from the download URLs that came back, the picked colors and the parsed form.
5. Adds the record to the `Products` collection of the document store.

This project models that logic and proves what it guarantees:

- `collections.dfy` (module `Collections`) holds Kotlin's nullable value as `Option` and the "keep what is present, in order" filter `Keep`. The screen applies that filter three times: to the clip items of a multi-image pick, in the compress loop and in the upload loop. The module proves that `Keep` yields an in-order subsequence, distributes over concatenation and drops only absent elements.
- `text.dfy` (module `Text`) covers:
  - Kotlin's `trim()`, with `Char.isWhitespace` (Java whitespace plus the Unicode space separators)
  - `split(",")`, which keeps empty pieces
  - joining with a separator
  - the two round trips between splitting and joining
- `colors.dfy` (module `Colors`) covers:
  - colors as 32-bit signed `Int`s
  - Java's `Integer.toHexString`: lower-case digits of the unsigned 32-bit value with no leading zeros, proved to read back to that value and to be injective
  - the text of the selected-colors label
- `products.dfy` (module `Products`) covers:
  - the form and the product record
  - `validateInformation`
  - `getSizesList`: its counts, trimming and join round trip, and the worked cases `"S, M ,L"` and `","`
- `saving.dfy` (module `Saving`) covers:
  - the compress loop and the upload loop of `saveProducts`, as `while` loops proved against `Keep`
  - the fate of each selected image: lost at compression, lost at upload, or stored
  - the outcome of a save
- `screen.dfy` (module `Screen`) holds the class `MainActivity`:
  - fields `selectedColors`, `selectedImages` and the colors label
  - the color-picker and image-picker callbacks, which only ever append
  - `updateColors` as a loop
  - `saveProducts` and the save menu item

External effects are inputs to the model:
- What opening, decoding and compressing each image did is a `CompressOutcome`, one per selected image.
- What each upload returned is an `UploadOutcome`, one per compressed image.
- Whether the document store accepted the record is a `bool`.
- The random product id is a `string`.

The code's behaviour is easy to misread in four places; the model follows the code:
- **Save.** The save is not all-or-nothing. A failed compression or upload drops only that image, and the record is still written, possibly with no image at all (`Saving.SavedWithoutImages`).
- **Price.** Validation does not require the price to be numeric or positive (`Products.ValidationExamples`).
- **Sizes.** Empty size pieces are kept (`Products.SizesExampleEmptyPieces`).
- **Selection.** The save reads the live selection lists, not a copy taken when the save starts. The model runs a save as one uninterrupted step, so it cannot express a pick that arrives while a save is in flight.

## Model

| member | source | states |
|---|---|---|
| Collections.Keep | app/src/main/java/com/example/productsmanagement/MainActivity.kt:158-169 | the kept values never outnumber the inputs |
| Collections.KeptIndices | app/src/main/java/com/example/productsmanagement/MainActivity.kt:158-169 | the kept values are the present values at strictly increasing positions, and every present position is among them: an order-preserving subsequence |
| Collections.KeepAppend | app/src/main/java/com/example/productsmanagement/MainActivity.kt:141-151 | filtering a concatenation is the concatenation of the filtered parts |
| Collections.KeepAllPresent | app/src/main/java/com/example/productsmanagement/MainActivity.kt:141-151 | nothing is dropped exactly when every element is present |
| Collections.SkipOnlyThat | app/src/main/java/com/example/productsmanagement/MainActivity.kt:146-150 | an absent element removes only itself from the result |
| Text.IsWhitespace | app/src/main/java/com/example/productsmanagement/MainActivity.kt:119 | Java whitespace or a Unicode space separator (Zs, Zl, Zp) |
| Text.AsciiWhitespace | app/src/main/java/com/example/productsmanagement/MainActivity.kt:119 | within ASCII, whitespace is exactly the space, tab through carriage return and the four information separators; letters, digits and the comma are not whitespace |
| Text.TrimStart | app/src/main/java/com/example/productsmanagement/MainActivity.kt:119 | the result is a suffix that does not start with whitespace |
| Text.TrimEnd | app/src/main/java/com/example/productsmanagement/MainActivity.kt:119 | the result is a prefix that does not end with whitespace |
| Text.TrimStartDropsBlank | app/src/main/java/com/example/productsmanagement/MainActivity.kt:119 | only whitespace is removed from the front |
| Text.TrimEndDropsBlank | app/src/main/java/com/example/productsmanagement/MainActivity.kt:119 | only whitespace is removed from the back |
| Text.Trim | app/src/main/java/com/example/productsmanagement/MainActivity.kt:119-124 | the trimmed text has no surrounding whitespace and is empty exactly when the input is blank |
| Text.TrimKeepsCharacters | app/src/main/java/com/example/productsmanagement/MainActivity.kt:224 | every character of the trimmed text occurs in the input |
| Text.TrimIsSlice | app/src/main/java/com/example/productsmanagement/MainActivity.kt:224 | the trimmed text is the input with a blank prefix and a blank suffix cut off |
| Text.TrimOfTrimmed | app/src/main/java/com/example/productsmanagement/MainActivity.kt:224 | trimming text without surrounding whitespace changes nothing |
| Text.TrimIdempotent | app/src/main/java/com/example/productsmanagement/MainActivity.kt:129-132 | trimming twice is trimming once |
| Text.Split | app/src/main/java/com/example/productsmanagement/MainActivity.kt:224 | one piece more than there are separators, and no piece contains the separator |
| Text.CountAppend | app/src/main/java/com/example/productsmanagement/MainActivity.kt:231 | the count of a character in a concatenation is the sum of the counts |
| Text.JoinSplit | app/src/main/java/com/example/productsmanagement/MainActivity.kt:224 | joining the pieces of a split with the separator gives back the text |
| Text.SplitPrefix | app/src/main/java/com/example/productsmanagement/MainActivity.kt:224 | separator-free text in front of a string joins the first piece of its split |
| Text.SplitJoin | app/src/main/java/com/example/productsmanagement/MainActivity.kt:224 | splitting a join of separator-free pieces gives back the pieces |
| Colors.Unsigned | app/src/main/java/com/example/productsmanagement/MainActivity.kt:231 | the value lies in [0, 2^32) and is congruent to the color modulo 2^32 |
| Colors.HexDigit | app/src/main/java/com/example/productsmanagement/MainActivity.kt:231 | a lower-case hexadecimal digit whose value is the input |
| Colors.HexDigits | app/src/main/java/com/example/productsmanagement/MainActivity.kt:231 | at least one hexadecimal digit, and no leading zero unless the number is zero |
| Colors.HexDigitsRoundTrip | app/src/main/java/com/example/productsmanagement/MainActivity.kt:231 | reading the digits back gives the number |
| Colors.HexDigitsLength | app/src/main/java/com/example/productsmanagement/MainActivity.kt:231 | a number below 16^k has at most k digits |
| Colors.ToHexString | app/src/main/java/com/example/productsmanagement/MainActivity.kt:231 | one to eight lower-case hexadecimal digits, no leading zero, reading back to the unsigned 32-bit value |
| Colors.ToHexStringInjective | app/src/main/java/com/example/productsmanagement/MainActivity.kt:231 | two colors with the same hexadecimal text are the same color |
| Colors.Segment | app/src/main/java/com/example/productsmanagement/MainActivity.kt:231 | a space, the color's hexadecimal text, then `, `: three characters longer than the hexadecimal text, with exactly one comma |
| Colors.SegmentLayout | app/src/main/java/com/example/productsmanagement/MainActivity.kt:231 | the segment opens with a space, carries the color's hexadecimal text and closes with a comma and a space |
| Colors.ColorsText | app/src/main/java/com/example/productsmanagement/MainActivity.kt:228-234 | the label is empty exactly when no color is picked |
| Colors.ColorsTextAppend | app/src/main/java/com/example/productsmanagement/MainActivity.kt:228-234 | the label of a longer list extends the label of its prefix |
| Colors.ColorsTextSegments | app/src/main/java/com/example/productsmanagement/MainActivity.kt:228-234 | the label holds exactly one comma per picked color |
| Products.ValidateInformation | app/src/main/java/com/example/productsmanagement/MainActivity.kt:116-126 | valid exactly when an image is selected and the name, category and price are not blank |
| Products.ValidationIgnoresOptionalFields | app/src/main/java/com/example/productsmanagement/MainActivity.kt:116-126 | offer percentage, description and sizes never change the verdict |
| Products.ValidationExamples | app/src/main/java/com/example/productsmanagement/MainActivity.kt:123-124 | the prices `abc` and ` -5 ` pass; no image or a blank category fails |
| Products.GetSizesList | app/src/main/java/com/example/productsmanagement/MainActivity.kt:221-226 | no list exactly for empty text; otherwise size i is the i-th comma-separated piece trimmed, with one size more than there are commas, each without surrounding whitespace |
| Products.TrimEach | app/src/main/java/com/example/productsmanagement/MainActivity.kt:224 | same length, and each element is the trimmed piece at the same position |
| Products.SizesOfBlankField | app/src/main/java/com/example/productsmanagement/MainActivity.kt:129 | after the caller's trim, no list exactly when the size field is blank |
| Products.SizesHaveNoComma | app/src/main/java/com/example/productsmanagement/MainActivity.kt:224 | no parsed size contains a comma |
| Products.SizesJoinBack | app/src/main/java/com/example/productsmanagement/MainActivity.kt:224 | when the pieces have no surrounding whitespace, joining the sizes with commas gives back the text |
| Products.TrimEachOfTrimmed | app/src/main/java/com/example/productsmanagement/MainActivity.kt:224 | trimming already trimmed pieces changes none of them |
| Products.TrimEachPointwise | app/src/main/java/com/example/productsmanagement/MainActivity.kt:224 | each already trimmed piece is left as it is |
| Products.SizesFromJoin | app/src/main/java/com/example/productsmanagement/MainActivity.kt:221-226 | trimmed, comma-free sizes are parsed back exactly from their comma-joined text |
| Products.SizesExampleSpaces | app/src/main/java/com/example/productsmanagement/MainActivity.kt:224 | `S, M ,L` gives `S`, `M`, `L` |
| Products.TrimEachExample | app/src/main/java/com/example/productsmanagement/MainActivity.kt:224 | the pieces `S`, ` M `, `L` trim to `S`, `M`, `L` |
| Products.TrimSpacedExample | app/src/main/java/com/example/productsmanagement/MainActivity.kt:224 | ` M ` trims to `M` |
| Products.SplitSizesExample | app/src/main/java/com/example/productsmanagement/MainActivity.kt:224 | `S, M ,L` splits into `S`, ` M `, `L` |
| Products.SizesExampleEmptyPieces | app/src/main/java/com/example/productsmanagement/MainActivity.kt:221-224 | `,` gives two empty sizes, and the empty text gives no list |
| Products.BuildProduct | app/src/main/java/com/example/productsmanagement/MainActivity.kt:172-182 | the id as given; name, category, price, offer percentage and description are the trimmed fields; sizes are parsed from the trimmed size field (none exactly when it is blank); colors and URLs as given |
| Saving.CompressImages | app/src/main/java/com/example/productsmanagement/MainActivity.kt:139-153 | fails exactly when some image could not be opened; otherwise the JPEGs of the images that compressed, in selection order |
| Saving.UploadImages | app/src/main/java/com/example/productsmanagement/MainActivity.kt:156-169 | the URLs of the successful uploads, in order, never more than the payloads |
| Saving.Fates | app/src/main/java/com/example/productsmanagement/MainActivity.kt:139-169 | one fate per selected image, lost at compression exactly when that image did not compress |
| Saving.UrlsAreStoredImages | app/src/main/java/com/example/productsmanagement/MainActivity.kt:139-169 | the collected URLs are exactly the URLs of the stored images, in selection order |
| Saving.AllStoredExactlyWhenNothingFailed | app/src/main/java/com/example/productsmanagement/MainActivity.kt:139-169 | the record holds one URL per selected image exactly when every compression and every upload succeeded |
| Saving.LostImageSkipsOnlyItself | app/src/main/java/com/example/productsmanagement/MainActivity.kt:158-169 | a lost image removes its own URL and keeps the URLs before and after it |
| Saving.SaveOutcomeOf | app/src/main/java/com/example/productsmanagement/MainActivity.kt:136-208 | crashes exactly on a read failure and is saved exactly when the store accepts; the record carries the stored images' URLs in order, the colors, the parsed trimmed sizes, the id and the trimmed name, category, price, offer percentage and description |
| Saving.SavedWithoutImages | app/src/main/java/com/example/productsmanagement/MainActivity.kt:146-150 | an image that does not compress still leads to a saved record, with no URL |
| Screen.PickedUris | app/src/main/java/com/example/productsmanagement/MainActivity.kt:66-83 | nothing unless the result is OK and has an intent; with clip data, exactly the non-null item URIs in item order; otherwise exactly the `data` URI when present; never more URIs than offered |
| Screen.NullClipItemSkipsOnlyItself | app/src/main/java/com/example/productsmanagement/MainActivity.kt:73-76 | a clip item with a null URI is skipped and disturbs nothing around it |
| Screen.ClipItemsAllAdded | app/src/main/java/com/example/productsmanagement/MainActivity.kt:73-76 | every clip item is added exactly when none has a null URI |
| Screen.MainActivity.constructor | app/src/main/java/com/example/productsmanagement/MainActivity.kt:38-39 | both selections start empty and the label shows them |
| Screen.MainActivity.UpdateColors | app/src/main/java/com/example/productsmanagement/MainActivity.kt:228-234 | the label becomes the text of the picked colors, with one comma per color |
| Screen.MainActivity.OnColorSelected | app/src/main/java/com/example/productsmanagement/MainActivity.kt:53-57 | a delivered color is appended at the end, earlier picks unchanged, and the label grows by that color's segment; a null envelope changes nothing |
| Screen.MainActivity.OnImagesResult | app/src/main/java/com/example/productsmanagement/MainActivity.kt:66-85 | the picked URIs are appended after the existing selection, which is unchanged |
| Screen.MainActivity.SaveProducts | app/src/main/java/com/example/productsmanagement/MainActivity.kt:128-210 | the two loops and the record assembly produce the outcome that `Saving.SaveOutcomeOf` specifies, with at most one URL per selected image |
| Screen.MainActivity.OnSaveSelected | app/src/main/java/com/example/productsmanagement/MainActivity.kt:102-114 | the save is not started exactly when validation fails; otherwise the save's outcome, whose record has a non-empty name |

## Left out

- Firebase object storage (`putBytes`, the download URL) and the document store (`add`) are remote I/O. Their results are inputs: one `UploadOutcome` per upload and one `bool` for the commit. The storage key of each upload is not modelled.
- Image decoding and JPEG compression (`BitmapFactory`, `compress` at quality 85) are library calls. Their results are inputs: one `CompressOutcome` per selected image.
- The content resolver is I/O. A stream that fails to open throws inside the `async` block (lines 139-153); the general error handler (lines 199-207) runs and no record is built, which is the outcome `Crashed`.
- Saving.SaveOutcomeOf: after that handler runs, the failed `async` child has also cancelled the `launch`ed coroutine (line 136) with the same exception. Under the coroutine library's rules that exception then reaches the thread's uncaught-exception handler, which ends the process. This escape is not modelled: `Crashed` stops at the handler.
- Coroutines (`launch`, `async`/`await`) are left out. The model runs the loops in order, and a pick made while a save is in flight is not modelled.
- `UUID.randomUUID()` is random. The product id is a parameter.
- Saving.SaveOutcomeOf: price and offer percentage stay as trimmed text, because `toFloat`/`toFloatOrNull` (lines 133-134) are floating point.
  - A non-numeric price passes validation and then throws at line 133, before the guarded block. That crash is not an outcome of this model.
  - An offer percentage that does not parse becomes null in the source; here it stays as text.
- Products.BuildProduct: price and offer percentage are text for the same reason.
- Screen.MainActivity.SaveProducts: when `toFloat` rejects the price, the source throws at line 133, synchronously and before `launch`, and nothing catches it, so nothing is saved. The model instead returns the outcome of the save for any price text.
- Screen.MainActivity.OnSaveSelected: a valid form whose price does not parse as a number makes the source throw at line 133 and save nothing. The model instead returns the outcome of the save.
- The `Product` class is not part of this model. Its fields are taken from the constructor call at lines 172-182.
- The record takes the value of `selectedColors`. In the source it shares the live mutable list, so later picks would show through; that aliasing is not modelled.
- Toasts, the progress bar, logging, the color-picker dialog, menu inflation and the `state` callback are UI. They are left out.
- The image-count label (`updateImages`) is UI text. It is left out.
- The colors label's initial text comes from the layout, which is not part of this model. The constructor starts it empty.
- `onOptionsItemSelected` for menu items other than save, and its boolean return value, are left out.
- Dafny characters are Unicode scalar values, while Kotlin strings are UTF-16. Trimming and splitting of surrogate pairs are modelled on scalar values. The whitespace table is fixed to the characters listed in `Text.IsWhitespace`.
