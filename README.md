# VideoMind polyglot download — offset patching engine

VideoMind's "universal" download saves one file that is at the same time the uploaded video,
a PDF report and a ZIP archive. It writes the video first, then the PDF, then the ZIP. PDF and
ZIP readers find their parts through absolute byte offsets, so before the parts are joined the
engine rewrites those offsets:

- the PDF is patched by the video's size: every offset field of the cross-reference table
  (ISO 32000-1, section 7.5.4) and the `startxref` value of the trailer (section 7.5.5);
- the ZIP is patched by the video's size plus the PDF's size: the central directory offset of
  the end of central directory record (PKWARE APPNOTE.TXT, section 4.3.16) and the local
  header offset of each central directory file header (section 4.3.12).

This project models that engine in Dafny, with the same loops, cursors, bounds checks and
exceptions, and proves what the patched files look like.

- `Bytes` (bytes.dfy): bytes, `Uint8Array.set` (`Store`, a `RangeError` when the source runs
  past the end), little-endian `DataView` reads and writes, and `setUint32`'s reduction modulo
  2^32. It also holds `ApplyPatches`, a list of writes carried out one after the other, which
  the proofs use to describe the result of a patching loop.
- `Text` (text.dfy): `padLeft`, `Number.prototype.toString`, `parseInt`, `trim` and the
  header-count expression, on ASCII bytes. It proves that `parseInt` reads back what
  `toString` and the ten-character entry rendering wrote.
- `Scanner` (scanner.dfy): `findSubArrayIndex` as a loop method, proved against the function
  `FirstMatch`. It also holds the `indexOf` of a byte.
- `PdfPatch` (pdf_patch.dfy): `fixPdfOffsets`, a method over a buffer array proved equal to
  the function `PatchPdf`.
- `ZipPatch` (zip_patch.dfy): `fixZipOffsets`, a method over a buffer array proved equal to
  the function `PatchZip`.
- `Polyglot` (polyglot.dfy): the patch and concatenate sequence of `handleDownloadPolyglot`
  and the download name. It proves where every moved offset lies in the joined file.

Behaviour of the source that the model keeps, and that the lemmas make visible:

- The PDF patch is all or nothing. The entry fields are rewritten in place. If a later write
  runs past the end, the exception is caught and the unpatched document is returned
  (`PdfAllOrNothing`, `PdfTrailerOverrunKeepsInput`). This includes the case where the new
  `startxref` text plus "\n%%EOF\n" does not fit in the bytes after "startxref".
- An entry field is `padLeft(value, 10).slice(0, 10)`. A new offset of eleven or more digits
  therefore keeps its leftmost ten digits. The offset properties are stated for new offsets
  below 10^10.
- The ZIP walk bounds-checks only the four signature bytes. A header whose 46-byte fixed part
  runs past the end makes `getUint32` throw. `fixZipOffsets` does not catch this, so the
  handler ends in its catch (`Outcome.Failed`, the alert).
- The ZIP walk starts from the central directory offset as it was before it was moved. It
  reads the entry count after the record's offset field has been written.

## Model

| member | source | states |
|---|---|---|
| Text.PadLeftSpec | src/components/AnalysisView.tsx:18-20 | the result has length max(targetLen, \|str\|), ends with `str`, and every character before `str` is `padChar` |
| Text.DecimalSpec | src/components/AnalysisView.tsx:76 | `toString` of a natural writes at least one digit, no leading zero, and digits whose value is the number |
| Text.NumberToStringShape | src/components/AnalysisView.tsx:87 | `toString` writes something non-empty, with no line feed and no white space at either end |
| Text.Render10Shape | src/components/AnalysisView.tsx:76 | an entry field is exactly ten characters with no line feed; a longer value keeps its leftmost ten characters |
| Text.Render10RoundTrip | src/components/AnalysisView.tsx:72-76 | a value below 10^10, rendered as an entry field, is ten digits that `parseInt` reads back as that value |
| Text.ParseNumberToString | src/components/AnalysisView.tsx:85-87 | `parseInt(n.toString())` is `n` for every integer, negative ones included |
| Text.ParseFieldLiteral | src/components/AnalysisView.tsx:70-72 | reading a number in place on the buffer equals `parseInt(decode(slice(from, to)).trim())` on the copy, for any bounds, including out-of-range ones |
| Text.HeaderCountLiteral | src/components/AnalysisView.tsx:62-65 | reading the entry count in place equals the trim/replace/split/pop/parseInt expression on the copied header |
| Scanner.FindSubArrayIndex | src/components/AnalysisView.tsx:22-34 | the loop returns `FirstMatch(array, subArray, startIndex)` and does not modify the array |
| Scanner.MatchesAt | src/components/AnalysisView.tsx:24-30 | the inner comparison loop reports whether every byte of `subArray` equals the array byte at the same distance from `i` |
| Scanner.FirstMatchSpec | src/components/AnalysisView.tsx:22-34 | the result is -1 or an occurrence at or after the start, and no occurrence at or after the start comes before it (so -1 exactly when there is none) |
| Scanner.IndexOfByteFirst | src/components/AnalysisView.tsx:56 | `indexOf` returns the first offset at or after `from` holding the byte, and -1 only when no such offset exists |
| PdfPatch.FixPdfOffsets | src/components/AnalysisView.tsx:40-100 | the in-place method returns exactly `PatchPdf(pdf, offsetToAdd)` |
| PdfPatch.FindMarkers | src/components/AnalysisView.tsx:43-58 | the three searches and the line-feed search give `LocateMarkers` of the buffer |
| PdfPatch.PatchEntriesInPlace | src/components/AnalysisView.tsx:67-81 | the entry loop succeeds exactly when the step-by-step entry rewrite succeeds, and then leaves that buffer |
| PdfPatch.PatchTrailerInPlace | src/components/AnalysisView.tsx:84-92 | the trailer step succeeds exactly when the startxref rewrite fits, and then leaves the buffer with the new value and "\n%%EOF\n" written |
| PdfPatch.WriteTrailerInPlace | src/components/AnalysisView.tsx:89-92 | the two `buffer.set` calls succeed exactly when both fit, and then store the text and the end-of-file marker after it |
| PdfPatch.LocateMarkersSpec | src/components/AnalysisView.tsx:43-58 | each marker found is the first occurrence of "\nxref" in the document, and of the first entry and "\nstartxref" at or after "xref" |
| PdfPatch.PdfFailOpen | src/components/AnalysisView.tsx:44-58 | the document comes back unchanged when "\nxref", the first entry, "\nstartxref" or the line feed after the startxref value is missing |
| PdfPatch.PatchPdfAsPatches | src/components/AnalysisView.tsx:60-97 | for a well-formed table, the loop that reads the buffer it is rewriting equals one pass of writes all computed from the unpatched document |
| PdfPatch.PdfPatchedLayout | src/components/AnalysisView.tsx:62-92 | each entry field holds its rewritten value, the new startxref text is followed by "\n%%EOF\n", every other byte is unchanged, and the length is kept |
| PdfPatch.PdfEntriesShifted | src/components/AnalysisView.tsx:67-81 | every entry field whose new value has at most ten digits holds ten digits that read as the old value plus the offset |
| PdfPatch.PdfTrailerWritten | src/components/AnalysisView.tsx:89-92 | the new startxref text starts ten bytes after the 's' of "startxref" (past the keyword and the byte after it, normally its line feed), and "\n%%EOF\n" follows it |
| PdfPatch.PdfStartXrefShifted | src/components/AnalysisView.tsx:84-92 | the new startxref value reads as the old value plus the offset, and a line feed follows it |
| PdfPatch.PdfAllOrNothing | src/components/AnalysisView.tsx:60-97 | once the xref and startxref markers are found: when an entry write runs past the end the document comes back unchanged, and any result other than the input ends with the new startxref text (the old value plus the offset, read after the entries were rewritten) followed by "\n%%EOF\n" |
| PdfPatch.PdfTrailerOverrunKeepsInput | src/components/AnalysisView.tsx:89-97 | when the table was rewritten but the new trailer would run past the end, the whole document comes back unchanged |
| ZipPatch.FixZipOffsets | src/components/AnalysisView.tsx:106-145 | the in-place method resolves to exactly `PatchZip(zip, offsetToAdd)`, a RangeError included |
| ZipPatch.FindEocdInPlace | src/components/AnalysisView.tsx:112-119 | the backward loop returns `FindEocd` of the buffer |
| ZipPatch.WalkInPlace | src/components/AnalysisView.tsx:128-142 | the header loop succeeds exactly when the step-by-step walk does, and then leaves that buffer |
| ZipPatch.PatchHeader | src/components/AnalysisView.tsx:134-141 | one header: its local header offset is moved, and the next position is the fixed part plus the name, extra field and comment lengths |
| ZipPatch.FindEocdSpec | src/components/AnalysisView.tsx:112-119 | the record found is the highest offset of the tail window that holds the signature, and -1 exactly when no offset there does |
| ZipPatch.ZipWithoutEocdUnchanged | src/components/AnalysisView.tsx:121 | without a record in the tail window the archive comes back unchanged |
| ZipPatch.EocdPatchedLayout | src/components/AnalysisView.tsx:124-125 | the central directory offset becomes (old + offset) mod 2^32 and no other byte changes |
| ZipPatch.HeaderPositionsShape | src/components/AnalysisView.tsx:128-142 | the walk visits at most `cdCount` headers; the first is at the unmoved central directory offset, each holds the signature, and each next one lies exactly 46 bytes plus the name, extra field and comment lengths after the previous one; it visits fewer than `cdCount` only when it stopped at a position failing the 4-byte bounds check or the signature |
| ZipPatch.WalkVisitsDirectory | src/components/AnalysisView.tsx:131-142 | the walk resolves with exactly `n` headers if and only if the `n` headers from its start form a directory: each signed, with its fixed part inside the buffer, and followed by the next |
| ZipPatch.ZipDirectoryMoved | src/components/AnalysisView.tsx:121-142 | when the `cdCount` headers from the central directory offset form a directory, the patch resolves, visits all of them in chain order, and moves the local header offset of every one by the offset mod 2^32, changing nothing else |
| ZipPatch.WalkAsPatches | src/components/AnalysisView.tsx:131-142 | the walk throws exactly when it reaches a header that is cut off; otherwise it equals the offset writes of the headers it visits, computed from the buffer it starts from |
| ZipPatch.PatchZipAsPatches | src/components/AnalysisView.tsx:121-142 | with a record found, the result is the record moved and then the offset writes of the visited headers, or a RangeError exactly when the walk reaches a cut-off header |
| ZipPatch.ZipPatchedLayout | src/components/AnalysisView.tsx:124-142 | when the patch resolves, every visited header holds the signature and has its local header offset moved by the offset mod 2^32, and nothing else changes |
| ZipPatch.ZipRecordMoved | src/components/AnalysisView.tsx:124-135 | when the patch resolves and no visited header field overlaps it, the record's central directory offset ends as (old + offset) mod 2^32 |
| Bytes.U32BytesValue | src/components/AnalysisView.tsx:125 | the four bytes `setUint32` stores read back with `getUint32` as the value mod 2^32 |
| Bytes.SetBytes | src/components/AnalysisView.tsx:77 | `buffer.set(src, at)` copies `src` to `at` and keeps every other byte |
| Polyglot.HandleDownloadPolyglot | src/components/AnalysisView.tsx:161-220 | the handler's outcome is `Download` of its inputs: nothing without a video, the alert when the archive patch throws, otherwise the combined file |
| Polyglot.DownloadOutcome | src/components/AnalysisView.tsx:161-220 | nothing happens exactly without a video; the handler fails exactly when patching the archive by the video's size plus the PDF's size throws; a download keeps the video's type and is the combined file |
| Polyglot.CombinedLayout | src/components/AnalysisView.tsx:188-203 | the joined file is the video, then the PDF patched by the video's size (as long as the unpatched PDF), then the archive patched by the video's size plus the PDF's size, and its length is the sum |
| Polyglot.CombinedPdfOffsets | src/components/AnalysisView.tsx:188-203 | read from the start of the joined file, each cross-reference entry with a new value below 10^10, and the startxref value, hold the old value plus the video's size |
| Polyglot.CombinedZipOffsets | src/components/AnalysisView.tsx:196-203 | read from the start of the joined file, each visited header's local header offset, and the record's central directory offset when no header field overlaps it, hold the old value plus the video's and the PDF's sizes, mod 2^32 |
| Polyglot.LastSegmentSpec | src/components/AnalysisView.tsx:206 | `split('.').pop()` is the dot-free tail of the name, preceded by a dot unless it is the whole name |
| Polyglot.ExtensionSpec | src/components/AnalysisView.tsx:206 | the extension is non-empty and dot-free; a dot-free name is its own extension; an empty name or one ending in a dot gives "mp4" |
| Polyglot.DownloadNameSpec | src/components/AnalysisView.tsx:206-207 | the file name is "videomind_universal." followed by a non-empty extension with no dot |

## Left out

- jsPDF and JSZip (src/components/AnalysisView.tsx:169-185, 192-196) are foreign libraries. The unpatched PDF is a parameter. The archive is a parameter too: a function of the unpatched PDF, since the ZIP embeds the raw report.
- Exceptions from jsPDF or JSZip are not modelled. The only exception modelled is the `RangeError` of a buffer write or a `DataView` read past the end.
- The object URL, the anchor click, `alert`, `console`, `setIsDownloading` and all rendering are UI and I/O. `Outcome.Failed` stands for the alert.
- `async`, `Promise` and `Blob` are plumbing. A blob is its bytes, and `videoFile.size` is the length of the video's bytes. The MIME type is carried along as given.
- `TextEncoder`/`TextDecoder` are modelled only on ASCII, which is all the patchers write or compare. Non-ASCII decoding and non-ASCII white space for `trim` are not modelled.
- JavaScript Numbers are modelled as unbounded integers, with `NaN` as `None`. Rounding above 2^53 and the exponent form of `toString` from 10^21 on are not modelled. Offsets of a file that fits in memory stay far below both limits.
- PdfPatch.PdfEntriesShifted states the value read back only for new offsets below 10^10. Above that, the field keeps its leftmost ten digits, which Text.Render10Shape states.
- Polyglot.CombinedPdfOffsets is stated for well-formed documents only: every entry the loop visits is ten digits followed by a line feed, and the new trailer fits. For other input the model still computes the result exactly (PdfPatch.PatchPdf), but no offset property is claimed.
- ZipPatch.ZipRecordMoved and Polyglot.CombinedZipOffsets leave out the case where a visited header's offset field overlaps the record's offset field, because the walk then rewrites that field a second time.
- The rest of the repository (services, App, uploader, buttons, constants, types) is not part of this model. It is UI, a network call to an external API, or declarations.
