# Image auto-labeler: label store and archive exporter

The image auto-labeler is an interactive tool with the following workflow:

- The user uploads a batch of images.
- A captioning model proposes a text label for each image.
- The user can edit the labels, remove images or clear the batch.
- Finally the images and their labels are exported as one archive. Each image is written under its own name, next to a `.txt` file holding its label.

This project models the two parts of that tool that hold logic and proves properties about them:

- **The archive exporter** (module `Exporter`, with `Utf8` for the label encoding). `CreateZip` walks the images in order. For each image it:
  - rewinds the image's in-memory file;
  - writes the file's whole content under the image name;
  - writes the UTF-8 encoding of the stored label under the derived `.txt` name.

  A missing label counts as the empty label. The archive is modelled as the ordered list of `(name, bytes)` writes, and the method is proved equal to the specification function `Archive`. `Unpack` describes what a reader extracting the archive sees: each name holds the data of the last entry written under it. The label-name rule cuts the name at its last `.` and appends `.txt`. It is `TxtFileName`, built on `LastDot`.
- **The label store** (module `LabelStore`, class `Session`). The session holds:
  - the ordered image list;
  - the name-to-label map;
  - the text-area values (one per image name);
  - the batch-request flag;
  - the upload-widget key;
  - the trigger word.

  Each user action is a method that updates these fields in place: load, trigger word, "Label All", the batch pass, single "Label", first display of a text area, manual edit, remove, clear and export. Each method states its whole new state as a function of the old one. Every method also keeps the session invariant `Valid()`: the label map's keys are exactly the loaded images' names. The loops of the source (the batch pass, the placeholder marking, the upload loop, the key-deletion loop) are `while`/`for` loops. Their invariants tie the state to fold functions: `Relabel`, `Mark`, `Loaded` and `FailedNames`.

Two functions stand in for calls into code that is not part of this model. Each is a parameter of the operation that uses it:

- The captioning model becomes `caption: Bitmap -> Result<string, string>`. A `Failure` carries the exception text.
- The image decoder becomes `decode: UploadedFile -> Option<Bitmap>`, with `None` for a file that does not open.

`Media` holds the shared values:

- bytes;
- `ByteStream`, an in-memory upload buffer with a read position;
- decoded pictures;
- upload and image records.

## Duplicate names in the archive

Two items can derive the same label name (`x.png` and `x.jpg` both give `x.txt`). One might expect the second `x.txt` to replace the first inside the archive. The code calls `zipfile.writestr` for both (exporter.py:46-50), which appends a second entry of the same name; nothing is overwritten inside the archive. The model follows the code:

- `Archive` holds both writes, in input order (`CollidingLabelsBothWritten`).
- The "last one wins" behaviour is that of an extracting reader. It is proved about `Unpack` (`CollisionLastItemWins`, `UnpackLastWriteWins`).

## Model

| member | source | states |
|---|---|---|
| Exporter.LastDot | exporter.py:58 | the result is the position of the last `.` (a `.` at it and none after it), and it is absent exactly when the name has no `.` |
| Exporter.TxtFileName | exporter.py:55-59 | the label name of an image name; it carries no contract of its own, and its meaning is stated by `TxtFileNameNoDot`, `TxtFileNameLastDot` and `TxtFileNameEndsWithTxt` |
| Exporter.TxtFileNameNoDot | exporter.py:55-59 | a name without `.` gives the whole name followed by `.txt` |
| Exporter.TxtFileNameLastDot | exporter.py:55-59 | a name whose last `.` is at k gives the prefix before k followed by `.txt` (the stem is a prefix of the name) |
| Exporter.TxtFileNameEndsWithTxt | exporter.py:58-59 | every derived label name ends with `.txt` |
| Exporter.TxtFileNameExamples | exporter.py:58-59 | `a.b.jpg` gives `a.b.txt`; `noext` gives `noext.txt` |
| Exporter.Archive | exporter.py:28-50 | N items give exactly 2N writes; no items give no writes |
| Exporter.CreateZip | exporter.py:12-53 | the writes are exactly `Archive` of the images' names and full file contents, whatever each stream's earlier position; every stream ends at its end |
| Exporter.WriteItem | exporter.py:29-50 | one image gives two writes: its full content from offset 0 under its name, then its encoded label under the derived name |
| Exporter.ArchiveAt | exporter.py:28-50 | write 2k is item k's image entry and write 2k+1 is its label entry (image before label, input order, an entry even for an empty or missing label) |
| Exporter.ArchiveAppend | exporter.py:28 | exporting two lists joined writes the first list's entries and then the second's |
| Exporter.ArchiveSplit | exporter.py:28-50 | the writes around item k: those of the items before it, its two entries, then those of the items after it |
| Exporter.StaleLabelsIgnored | exporter.py:28-47 | two label maps that agree on the items' names give the same archive, so keys that match no item are never read |
| Exporter.UnpackLastWriteWins | exporter.py:37-50 | after extraction a written name holds the data of its last write |
| Exporter.UnpackOnlyWrittenNames | exporter.py:37-50 | after extraction a name that was never written is absent |
| Exporter.LabelFileRoundTrip | exporter.py:46-50 | item k's label file, read back and decoded, is its stored label (or `""` when there is none), unless a later item writes the same name |
| Exporter.CollidingLabelsBothWritten | exporter.py:46-50 | two items deriving the same label name each get their own label entry, under the same name and in input order; no collision is detected |
| Exporter.CollisionLastItemWins | exporter.py:46-50 | with `x.png` then `x.jpg`, the extracted `x.txt` holds the label of `x.jpg` |
| Utf8.EncodeChar | exporter.py:50 | one character takes 1 to 4 bytes, a single byte exactly for ASCII, continuation bytes after the first |
| Utf8.Encode | exporter.py:50 | the encoding is at least one and at most four bytes per character, and empty only for the empty label |
| Utf8.DecodeEncode | exporter.py:50 | decoding the encoding of any label gives the label back |
| Utf8.EncodeDecode | exporter.py:50 | every byte string the decoder accepts is the encoding of what it returns |
| Utf8.EncodeKnown | exporter.py:50 | standard UTF-8 test vectors: `A`, `é`, U+0800, `€`, U+1F600 and U+10FFFF give their published byte sequences |
| Utf8.EncodeInjective | exporter.py:50 | distinct labels give distinct label files |
| Utf8.DecodeFirstOfEncodeChar | exporter.py:50 | the decoder reads one encoded character back and consumes exactly its bytes |
| Utf8.DecodeFirstIsCanonical | exporter.py:50 | a character the decoder accepts is spelled in its shortest form |
| Media.ByteStream.Read | exporter.py:36-37 | reading returns everything from the position to the end and leaves the position at the end |
| Media.ByteStream.Seek | exporter.py:36 | seeking sets the read position |
| LabelStore.IsSpace | app.py:141 | the whitespace set of Python's `str.isspace`, which `str.strip()` removes (a predicate; used by the contracts of `LeadingSpaces`, `TrailingSpaces` and `Strip`) |
| LabelStore.LeadingSpaces | app.py:141 | the count of leading characters that are all whitespace, stopping at the first non-whitespace character |
| LabelStore.TrailingSpaces | app.py:141 | the count of trailing characters that are all whitespace, stopping at the last non-whitespace character |
| LabelStore.Strip | app.py:141 | the result is the middle slice of the word that starts after the leading whitespace, with only whitespace after it; it is empty exactly when the word is all whitespace, and otherwise starts and ends with non-whitespace |
| LabelStore.StripWord | app.py:141 | `photo of`, which has no whitespace at either end, is kept as it is |
| LabelStore.StripIdempotent | app.py:141 | stripping a stripped word changes nothing |
| LabelStore.TriggerWhitespaceIgnored | app.py:141-142 | whitespace around the trigger word does not change the stored label |
| LabelStore.WithTriggerShape | app.py:141-142 | the label ends with the caption verbatim; a blank trigger word leaves the caption alone; any other puts the stripped word and one space in front |
| LabelStore.WithTriggerExample | app.py:141-142 | `photo of` before `a dog running` gives `photo of a dog running` |
| LabelStore.WithTrigger | app.py:141-142 | the caption behind the stripped trigger word and one space, or the caption alone for a blank trigger word; stated by `WithTriggerShape`, `TriggerWhitespaceIgnored` and `WithTriggerExample` |
| LabelStore.StoredLabel | app.py:138-148 | the label one captioning attempt stores: `WithTrigger` of the caption on success, `Error: ` and the message on failure; `CaptionLabel` is proved against it |
| LabelStore.CaptionLabel | app.py:138-148 | one captioning attempt stores the caption behind the trigger word on success, and `Error: ` followed by the message on failure |
| LabelStore.Session.constructor | app.py:15-25 | a fresh session has no images, no labels, no batch request, key 0 and an empty trigger word |
| LabelStore.Session.HandleUpload | app.py:28-42 | an empty upload changes nothing; otherwise the list is exactly the decodable files in upload order, every label is `""` under exactly their names, and the failed names are reported |
| LabelStore.Loaded | app.py:31-36 | the images that decode, in upload order; stated by `LoadedSkipsFailure`, `LoadedKeepsSuccess`, `LoadedAppend`, `LoadedCount` and `LoadedNames` |
| LabelStore.FailedNames | app.py:37-38 | the names of the files that do not decode, in upload order; stated by `LoadedSkipsFailure`, `LoadedAppend` and `LoadedCount` |
| LabelStore.LoadedSkipsFailure | app.py:31-38 | a file that fails to decode is reported and skipped, and the files after it are still loaded |
| LabelStore.LoadedKeepsSuccess | app.py:31-36 | a file that decodes is loaded with its name, picture and stream, between the files before and after it |
| LabelStore.LoadedAppend | app.py:31-38 | loading two batches joined loads and reports each batch in order |
| LabelStore.LoadedCount | app.py:31-38 | every file is either loaded or reported |
| LabelStore.LoadedNames | app.py:31-41 | the loaded names are exactly the names of the files that decode |
| LabelStore.Session.SetTriggerWord | app.py:70-76 | the trigger word becomes the typed value |
| LabelStore.Session.LabelAll | app.py:79-85 | the batch is requested and every loaded name's label and text area hold `Labeling...`; other text areas are unchanged |
| LabelStore.Mark | app.py:81-84 | the map after writing the placeholder under each listed name in order; stated by `MarkSpec` |
| LabelStore.MarkSpec | app.py:81-84 | marking gives every listed name the placeholder, adds no other key and leaves every other value unchanged |
| LabelStore.Session.RunBatch | app.py:126-160 | when requested, labels and text areas become the in-order relabelling of every loaded image; the request is cleared; without a request nothing changes |
| LabelStore.Relabel | app.py:134-148 | the map after storing each image's captioning result under its name in order; stated by `RelabelKeys`, `RelabelAt`, `RelabelOverwritesAll` and `RelabelOthers` |
| LabelStore.RelabelKeys | app.py:134-148 | the relabelled map's keys are the old keys plus the loaded names |
| LabelStore.RelabelAt | app.py:134-148 | each image's name holds its own caption or error string, whatever happened to the images before it, unless a later image has the same name |
| LabelStore.RelabelOverwritesAll | app.py:134-148 | after the batch every loaded name holds the caption or error string of some image with that name |
| LabelStore.RelabelOthers | app.py:134-148 | names of no loaded image keep their label through the batch |
| LabelStore.Session.LabelOne | app.py:186-205 | only image i's label and text area change, to its caption behind the trigger word or its error string |
| LabelStore.Session.InitTextInput | app.py:179-184 | a text area that already exists is kept; a new one starts from the stored label |
| LabelStore.Session.Edit | app.py:207-216 | only image i's label changes, to the text-area value |
| LabelStore.Session.Remove | app.py:219-241 | every image of that name leaves the list and its label and text area are deleted; the other labels and text areas are unchanged |
| LabelStore.Without | app.py:226-230 | the images whose name differs from the removed one, in order; stated by `WithoutMembers`, `WithoutAppend`, `WithoutAbsent` and `NamesWithout` |
| LabelStore.NamesWithout | app.py:226-230 | the names after removal are the old names minus the removed one |
| LabelStore.WithoutMembers | app.py:226-230 | removal keeps exactly the images with another name |
| LabelStore.WithoutAppend | app.py:226-230 | removal keeps the relative order of the images that stay |
| LabelStore.WithoutAbsent | app.py:226-230 | removing a name that no image has changes nothing |
| LabelStore.Session.Clear | app.py:87-102 | the list, the labels and every text area are empty, and the widget key grows by exactly one |
| LabelStore.Session.Export | app.py:106-113 | with no images nothing is exported; otherwise the export is `Archive` of the images and the session's labels; every image's stream is left at its end |
| LabelStore.ExportReadsStoredLabels | app.py:109-113 | in a consistent session every label file holds the encoding of the stored label, never the empty default |
| LabelStore.BatchThenExport | app.py:134-148 | after the batch, image k's label file reads back as its caption or error string, unless a later image writes the same name |

## Left out

- The `hasattr(img_file, "read")` test and its PNG re-encoding branch (exporter.py:38-43) are not modelled. The session always stores the uploaded file object, so the model always takes the file branch.
- The ZIP container, DEFLATE compression and the final `zip_buffer.seek(0)` (exporter.py:25-27, 52-53) are left to the `zipfile` library. The archive is the ordered list of writes.
- Exporter.CreateZip: the export's failure path is not modelled. `seek` or `read` on a closed stream raises at exporter.py:36-37 and aborts the whole export, but the session never closes the stored upload buffers and `Image.open` does not close a file object it is given, so `ByteStream.Read` cannot fail in the model.
- The debugging `print` of a generated label (app.py:195) is output only and is not modelled.
- `get_download_filename` (exporter.py:61-66) depends on the clock and is not modelled.
- The captioning model (labelizer/__init__.py) is an opaque parameter. Model loading, the device choice and generation are not modelled. The captioner is assumed to give the same result for the same picture.
- `Image.open` is the `decode` parameter. The stream position that decoding leaves behind is not modelled; `CreateZip` rewinds the stream anyway.
- Streamlit rendering, `st.rerun`, the progress bar and status text (app.py:128-136, 150-158), `st.error` and `st.write` are not modelled. A failed upload is returned as a name in `failed`; nothing is displayed.
- The `uploaded_files = None` session key (app.py:101) is read by no modelled operation and is not modelled.
- LabelStore.Session: text areas are keyed by image name rather than by the `text_input_` + name session key. Clearing them is the deletion of every such key (app.py:91-97). Other session keys are not modelled.
- LabelStore.Session.Edit: models the value that the text area returns in one run of the page, for one image. The page repeats this for every displayed image.
- Utf8.Encode: Python strings can hold lone surrogates, and encoding them raises an exception. Dafny characters are Unicode scalar values, so that case cannot arise in the model.
- Media.ByteStream: models only `seek` and `read` of the in-memory upload buffer.
