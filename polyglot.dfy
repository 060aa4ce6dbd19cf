// The polyglot download: the video, then the PDF report with its offsets moved past the
// video, then the ZIP archive with its offsets moved past the video and the PDF.

module Polyglot {
  import opened Bytes
  import opened Text
  import opened PdfPatch
  import opened ZipPatch

  /** The uploaded video: its file name, its MIME type and its bytes. */
  datatype VideoFile = VideoFile(name: string, mime: string, data: seq<u8>)

  /** What `handleDownloadPolyglot` ends in: nothing at all without a video, a download of
      the combined file, or the alert shown when an exception reaches the handler. */
  datatype Outcome =
    | NoVideo
    | Downloaded(name: string, mime: string, data: seq<u8>)
    | Failed

  // ---------------------------------------------------------------------------------------
  // The file name

  /** `name.split('.').pop()`: the text after the last dot, or the whole name without one. */
  function LastSegment(name: string): (r: string)
    decreases |name|
  {
    if name == [] || name[|name| - 1] == '.' then []
    else LastSegment(name[..|name| - 1]) + [name[|name| - 1]]
  }

  /** The extension of the download: the last segment of the video's name, or "mp4" when
      that segment is empty. */
  function Extension(name: string): (r: string)
  {
    var last := LastSegment(name);
    if last == [] then "mp4" else last
  }

  /** The name the combined file is saved under. */
  function DownloadName(name: string): (r: string)
  {
    "videomind_universal." + Extension(name)
  }

  /** The last segment is the dot-free tail of the name, preceded by a dot unless it is the
      whole name. */
  lemma {:induction false} LastSegmentSpec(name: string)
    ensures var r := LastSegment(name);
      && |r| <= |name|
      && r == name[|name| - |r|..]
      && '.' !in r
      && (|r| < |name| ==> name[|name| - |r| - 1] == '.')
    decreases |name|
  {
    if name != [] && name[|name| - 1] != '.' {
      var init := name[..|name| - 1];
      LastSegmentSpec(init);
      var r0 := LastSegment(init);
      assert name[|name| - |r0| - 1..] == init[|init| - |r0|..] + [name[|name| - 1]];
    }
  }

  /** The extension is never empty and holds no dot; a dot-free name is its own extension,
      and a name that is empty or ends in a dot falls back to "mp4". */
  lemma {:induction false} ExtensionSpec(name: string)
    ensures var r := Extension(name);
      && r != []
      && '.' !in r
      && (name != [] && '.' !in name ==> r == name)
      && (name == [] || name[|name| - 1] == '.' ==> r == "mp4")
  {
    LastSegmentSpec(name);
  }

  // ---------------------------------------------------------------------------------------
  // The combined file

  /** The video, the PDF patched by the video's size, and the archive patched by the video's
      size plus the patched PDF's size; none when patching the archive throws. */
  function Combined(video: seq<u8>, rawPdf: seq<u8>, rawZip: seq<u8>): (r: Option<seq<u8>>)
  {
    var pdf := PatchPdf(rawPdf, |video|);
    Joined(video, pdf, PatchZip(rawZip, |video| + |pdf|))
  }

  /** The three parts back to back, or none when the archive could not be patched. */
  function Joined(video: seq<u8>, pdf: seq<u8>, zip: Result<seq<u8>>): (r: Option<seq<u8>>)
  {
    match zip
    case RangeError => None
    case Ok(z) => Some(video + pdf + z)
  }

  /** What the handler does for the video `file`, the document `rawPdf` jsPDF produced and
      `archive`, the archive JSZip builds around a given report. */
  function Download(file: Option<VideoFile>, rawPdf: seq<u8>, archive: seq<u8> -> seq<u8>): (r: Outcome)
  {
    match file
    case None => NoVideo
    case Some(v) =>
      match Combined(v.data, rawPdf, archive(rawPdf))
      case None => Failed
      case Some(out) => Downloaded(DownloadName(v.name), v.mime, out)
  }

  /** `handleDownloadPolyglot`: patches the PDF, builds the archive around the unpatched PDF,
      patches the archive and concatenates the three parts. */
  method HandleDownloadPolyglot(videoFile: Option<VideoFile>, rawPdf: seq<u8>, archive: seq<u8> -> seq<u8>)
    returns (outcome: Outcome)
    ensures outcome == Download(videoFile, rawPdf, archive)
  {
    if videoFile.None? {
      return NoVideo;
    }
    var video := videoFile.value;
    var videoSize := |video.data|;
    var patchedPdf := FixPdfOffsets(rawPdf, videoSize);
    var pdfSize := |patchedPdf|;
    var rawZip := archive(rawPdf);
    var patchedZip := FixZipOffsets(rawZip, videoSize + pdfSize);
    assert Combined(video.data, rawPdf, rawZip) == Joined(video.data, patchedPdf, patchedZip);
    if patchedZip.RangeError? {
      // the exception from the archive patcher reaches the handler's catch
      return Failed;
    }
    var combined := video.data + patchedPdf + patchedZip.value;
    outcome := Downloaded(DownloadName(video.name), video.mime, combined);
  }

  /** The handler does nothing without a video, fails exactly when patching the archive at
      the video's size plus the unpatched PDF's size throws, and otherwise saves the combined
      file with the video's type. */
  lemma {:induction false} DownloadOutcome(file: Option<VideoFile>, rawPdf: seq<u8>, archive: seq<u8> -> seq<u8>)
    ensures var r := Download(file, rawPdf, archive);
      && (r.NoVideo? <==> file.None?)
      && (r.Failed? <==> file.Some? && PatchZip(archive(rawPdf), |file.value.data| + |rawPdf|).RangeError?)
      && (r.Downloaded? ==>
            && r.mime == file.value.mime
            && r.name == DownloadName(file.value.name)
            && Combined(file.value.data, rawPdf, archive(rawPdf)) == Some(r.data))
  {
    if file.Some? {
      var v := file.value;
      var rawZip := archive(rawPdf);
      var out := Combined(v.data, rawPdf, rawZip);
      assert Download(file, rawPdf, archive)
        == if out.None? then Failed else Downloaded(DownloadName(v.name), v.mime, out.value);
    }
  }

  /** The combined file is saved under "videomind_universal." and a non-empty extension
      without a dot. */
  lemma {:induction false} DownloadNameSpec(name: string)
    ensures var r := DownloadName(name);
      && |r| > 20
      && r[..20] == "videomind_universal."
      && '.' !in r[20..]
  {
    ExtensionSpec(name);
    assert DownloadName(name)[20..] == Extension(name);
  }

  /** Layout of the combined file: it exists exactly when patching the archive at the
      video's size plus the unpatched PDF's size succeeds, and then it is the video, the
      patched PDF (as long as the unpatched one) and the patched archive, back to back. */
  lemma {:induction false} CombinedLayout(video: seq<u8>, rawPdf: seq<u8>, rawZip: seq<u8>)
    ensures var start := |video| + |rawPdf|;
      var out := Combined(video, rawPdf, rawZip);
      && (out.None? ==> PatchZip(rawZip, start) == RangeError)
      && (out.Some? ==>
            && |out.value| == start + |rawZip|
            && out.value[..|video|] == video
            && out.value[|video|..start] == PatchPdf(rawPdf, |video|)
            && PatchZip(rawZip, start) == Ok(out.value[start..]))
  {
    var pdf := PatchPdf(rawPdf, |video|);
    assert |video| + |pdf| == |video| + |rawPdf|;
    JoinedLayout(video, pdf, PatchZip(rawZip, |video| + |rawPdf|));
  }

  /** Where each part lies in the joined file. */
  lemma {:induction false} JoinedLayout(video: seq<u8>, pdf: seq<u8>, zip: Result<seq<u8>>)
    ensures var out := Joined(video, pdf, zip);
      && (out.None? ==> zip == RangeError)
      && (out.Some? ==>
            && |out.value| >= |video| + |pdf|
            && out.value[..|video|] == video
            && out.value[|video|..|video| + |pdf|] == pdf
            && zip == Ok(out.value[|video| + |pdf|..]))
  {
    if zip.Ok? {
      var out := video + pdf + zip.value;
      assert out[..|video|] == video;
      assert out[|video|..|video| + |pdf|] == pdf;
      assert out[|video| + |pdf|..] == zip.value;
    }
  }

  /** A number field of `seg` reads the same inside `out`, where `seg` sits at `d`. */
  lemma {:induction false} FieldInWindow(out: seq<u8>, d: nat, seg: seq<u8>, c: nat, n: nat)
    requires d + |seg| <= |out| && out[d..d + |seg|] == seg && c + n <= |seg|
    ensures ParseField(out, d + c, d + c + n) == ParseField(seg, c, c + n)
  {
    forall k | c <= k < c + n ensures seg[k] == out[k + d] {
      assert out[d..d + |seg|][k] == out[k + d];
    }
    ParseFieldShift(seg, out, d, c, c + n);
    assert c + d == d + c && c + n + d == d + c + n;
  }

  /** A 32-bit field of `seg` reads the same inside `out`, where `seg` sits at `d`. */
  lemma {:induction false} U32InWindow(out: seq<u8>, d: nat, seg: seq<u8>, p: nat)
    requires d + |seg| <= |out| && out[d..d + |seg|] == seg && p + 4 <= |seg|
    ensures U32At(out, d + p) == U32At(seg, p)
  {
    var w := seg[p..p + 4];
    var s := out[d..d + |seg|];
    assert out[d + p] == s[p] && out[d + p + 1] == s[p + 1];
    assert out[d + p + 2] == s[p + 2] && out[d + p + 3] == s[p + 3];
    U32AtOf(out, d + p, w);
    U32AtOf(seg, p, w);
  }

  /** Read from `out`, where the patched report `b` sits at `v`, every entry field whose new
      value still has ten digits holds its old value plus `v`. */
  predicate EntriesMoved(b: seq<u8>, cs: seq<nat>, v: nat, out: seq<u8>)
  {
    && (forall i :: 0 <= i < |cs| ==> cs[i] + 10 <= |b|)
    && (forall i :: 0 <= i < |cs| && DigitsIn(b, cs[i], cs[i] + 10) + v < TenDigitLimit ==>
          ParseField(out, v + cs[i], v + cs[i] + 10) == Some(DigitsIn(b, cs[i], cs[i] + 10) + v))
  }

  /** Read from `out`, where the patched report sits at `v`, the startxref text `t` at `at`
      holds the old value `before` plus `v`. */
  predicate StartXrefMoved(at: nat, t: seq<u8>, before: Option<int>, v: nat, out: seq<u8>)
  {
    before.Some? ==> ParseField(out, v + at, v + at + |t|) == Some(before.value + v)
  }

  /** Offset correctness of the PDF part: read from the start of the combined file, every
      cross-reference entry of a well-formed report whose new value still has ten digits, and
      the startxref value, hold their old value plus the video's size, which is where the
      objects they point at now lie. */
  lemma {:induction false} CombinedPdfOffsets(video: seq<u8>, rawPdf: seq<u8>, rawZip: seq<u8>)
    requires Combined(video, rawPdf, rawZip).Some? && WellFormedPdf(rawPdf, |video|)
    ensures var out, v := Combined(video, rawPdf, rawZip).value, |video|;
      && EntriesMoved(rawPdf, EntryPositions(rawPdf), v, out)
      && TrailerAt(rawPdf) + |TrailerText(rawPdf, v)| <= |rawPdf|
      && StartXrefMoved(TrailerAt(rawPdf), TrailerText(rawPdf, v), StartXrefValue(rawPdf), v, out)
  {
    var out := Combined(video, rawPdf, rawZip).value;
    var v := |video|;
    var pdf := PatchPdf(rawPdf, v);
    CombinedLayout(video, rawPdf, rawZip);
    PdfEntriesShifted(rawPdf, v);
    EntriesInWindow(rawPdf, EntryPositions(rawPdf), v, pdf, out);
    PdfStartXrefShifted(rawPdf, v);
    StartXrefInWindow(TrailerAt(rawPdf), TrailerText(rawPdf, v), StartXrefValue(rawPdf), v, pdf, out);
  }

  /** The shifted entry fields of the patched report `pdf` read the same inside `out`, where
      `pdf` sits at `v`. */
  lemma {:induction false} EntriesInWindow(b: seq<u8>, cs: seq<nat>, v: nat, pdf: seq<u8>, out: seq<u8>)
    requires |pdf| == |b| && v + |pdf| <= |out| && out[v..v + |pdf|] == pdf
    requires forall i :: 0 <= i < |cs| ==> EntryShifted(b, cs[i], v, pdf)
    ensures EntriesMoved(b, cs, v, out)
  {
    forall i | 0 <= i < |cs|
      ensures cs[i] + 10 <= |b|
      ensures DigitsIn(b, cs[i], cs[i] + 10) + v < TenDigitLimit ==>
        ParseField(out, v + cs[i], v + cs[i] + 10) == Some(DigitsIn(b, cs[i], cs[i] + 10) + v)
    {
      EntryInWindow(b, cs[i], v, pdf, out);
    }
  }

  /** One shifted entry field of the patched report `pdf` reads the same inside `out`, where
      `pdf` sits at `v`. */
  lemma {:induction false} EntryInWindow(b: seq<u8>, c: nat, v: nat, pdf: seq<u8>, out: seq<u8>)
    requires |pdf| == |b| && v + |pdf| <= |out| && out[v..v + |pdf|] == pdf
    requires EntryShifted(b, c, v, pdf)
    ensures c + 10 <= |b|
    ensures DigitsIn(b, c, c + 10) + v < TenDigitLimit ==>
      ParseField(out, v + c, v + c + 10) == Some(DigitsIn(b, c, c + 10) + v)
  {
    FieldInWindow(out, v, pdf, c, 10);
  }

  /** The shifted startxref text of the patched report `pdf` reads the same inside `out`,
      where `pdf` sits at `v`. */
  lemma {:induction false} StartXrefInWindow(at: nat, t: seq<u8>, before: Option<int>, v: nat, pdf: seq<u8>, out: seq<u8>)
    requires v + |pdf| <= |out| && out[v..v + |pdf|] == pdf
    requires StartXrefShifted(at, t, before, v, pdf)
    ensures at + |t| <= |pdf|
    ensures StartXrefMoved(at, t, before, v, out)
  {
    FieldInWindow(out, v, pdf, at, |t|);
  }

  /** Read from `out`, where the patched archive sits at `start`, the local header offset of
      each header of `cs` holds its value in `buf` plus `start` modulo 2^32. */
  predicate LocalOffsetsMoved(buf: seq<u8>, cs: seq<nat>, start: nat, out: seq<u8>)
  {
    && HeadersFit(|buf|, cs)
    && forall i :: 0 <= i < |cs| ==>
         && start + cs[i] + HeaderSize <= |out|
         && U32At(out, start + cs[i] + 42) == (U32At(buf, cs[i] + 42) + start) % Two32
  }

  /** Read from `out`, where the patched archive sits at `start`, the central directory offset
      of the record at `e` in `b` holds its old value plus `start` modulo 2^32. */
  predicate RecordMoved(b: seq<u8>, e: nat, start: nat, out: seq<u8>)
  {
    && e + EocdSize <= |b|
    && start + e + 20 <= |out|
    && U32At(out, start + e + 16) == (U32At(b, e + 16) + start) % Two32
  }

  /** Read from `out`, where the archive `b` patched by `start` sits at `start`: the walk from
      the record at `e` resolves, every header it visits has its local header offset moved,
      and so has the record its central directory offset when no visited header field
      overlaps it. */
  predicate ZipOffsetsMoved(b: seq<u8>, start: nat, out: seq<u8>)
    requires FindEocd(b) >= 0
  {
    var e := FindEocd(b);
    var patched := EocdPatched(b, e, start);
    var hs := HeaderPositions(patched, U32At(b, e + 16), U16At(patched, e + 10));
    && hs.Ok?
    && LocalOffsetsMoved(patched, hs.value, start, out)
    && (FieldApart(hs.value, e + 16) ==> RecordMoved(b, e, start, out))
  }

  /** Offset correctness of the ZIP part: read from the start of the combined file, the local
      header offset of every central directory header the walk visits holds its value in the
      archive (with the record already moved) plus the video's and the PDF's size modulo 2^32,
      and so does the record's central directory offset when no visited header field
      overlaps it. */
  lemma {:induction false} CombinedZipOffsets(video: seq<u8>, rawPdf: seq<u8>, rawZip: seq<u8>)
    requires Combined(video, rawPdf, rawZip).Some? && FindEocd(rawZip) >= 0
    ensures ZipOffsetsMoved(rawZip, |video| + |rawPdf|, Combined(video, rawPdf, rawZip).value)
  {
    CombinedLayout(video, rawPdf, rawZip);
    var start := |video| + |rawPdf|;
    ZipInWindow(rawZip, start, Combined(video, rawPdf, rawZip).value);
  }

  /** The offsets of the patched archive, moved by `start`, read the same inside `out`, where
      the patched archive sits at `start`. */
  lemma {:induction false} ZipInWindow(b: seq<u8>, start: nat, out: seq<u8>)
    requires FindEocd(b) >= 0
    requires |out| == start + |b| && PatchZip(b, start) == Ok(out[start..])
    ensures ZipOffsetsMoved(b, start, out)
  {
    var e := FindEocd(b);
    var patched := EocdPatched(b, e, start);
    var hs := HeaderPositions(patched, U32At(b, e + 16), U16At(patched, e + 10));
    var zip := out[start..];
    assert out[start..start + |zip|] == zip;
    ZipPatchedLayout(b, start);
    HeadersInWindow(patched, hs.value, start, zip, out);
    ZipRecordMoved(b, start);
    if FieldApart(hs.value, e + 16) {
      RecordInWindow(b, e, start, zip, out);
    }
  }

  /** The moved local header offsets of the patched archive `zip` read the same inside `out`,
      where `zip` sits at `start`. */
  lemma {:induction false} HeadersInWindow(buf: seq<u8>, cs: seq<nat>, start: nat, zip: seq<u8>, out: seq<u8>)
    requires OffsetsMoved(buf, cs, start, zip)
    requires start + |zip| <= |out| && out[start..start + |zip|] == zip
    ensures LocalOffsetsMoved(buf, cs, start, out)
  {
    forall i | 0 <= i < |cs|
      ensures start + cs[i] + HeaderSize <= |out|
      ensures U32At(out, start + cs[i] + 42) == (U32At(buf, cs[i] + 42) + start) % Two32
    {
      U32InWindow(out, start, zip, cs[i] + 42);
    }
  }

  /** The moved central directory offset of the patched archive `zip` reads the same inside
      `out`, where `zip` sits at `start`. */
  lemma {:induction false} RecordInWindow(b: seq<u8>, e: nat, start: nat, zip: seq<u8>, out: seq<u8>)
    requires e + EocdSize <= |b| && |zip| == |b|
    requires U32At(zip, e + 16) == (U32At(b, e + 16) + start) % Two32
    requires start + |zip| <= |out| && out[start..start + |zip|] == zip
    ensures RecordMoved(b, e, start, out)
  {
    U32InWindow(out, start, zip, e + 16);
  }
}
