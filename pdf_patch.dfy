/** The document offset patcher, `fixPdfOffsets`: it rewrites the byte offsets of a PDF
    cross-reference table (ISO 32000-1, section 7.5.4) and the `startxref` value of its
    trailer (section 7.5.5) so that the document still resolves when it is preceded by
    `base` other bytes. Any step that throws leaves the document as it was. */
module PdfPatch {
  import opened Bytes
  import opened Text
  import opened Scanner

  /** "\nxref": the line that opens the cross-reference table. */
  const XrefToken: seq<u8> := [10, 120, 114, 101, 102]

  /** "\n0000000000": the line of the first table entry. */
  const FirstEntryToken: seq<u8> := [10, 48, 48, 48, 48, 48, 48, 48, 48, 48, 48]

  /** "\nstartxref": the trailer line naming where the table starts. */
  const StartXrefToken: seq<u8> := [10, 115, 116, 97, 114, 116, 120, 114, 101, 102]

  /** "\n%%EOF\n": written straight after the new startxref value. */
  const EofMarker: seq<u8> := [10, 37, 37, 69, 79, 70, 10]

  /** Where the patcher found its markers: `xrefStart` is the 'x' of "xref", `offsetStart` the
      first digit of the first entry, `startXrefStart` the 's' of "startxref" and
      `startXrefEnd` the line feed that ends the startxref value. */
  datatype Markers = Markers(xrefStart: nat, offsetStart: nat, startXrefStart: nat, startXrefEnd: nat)

  /** The marker search of `fixPdfOffsets`; `None` when the patcher returns the document
      untouched because a marker is missing. */
  function LocateMarkers(b: seq<u8>): (r: Option<Markers>)
    ensures r.Some? ==>
      && 1 <= r.value.xrefStart < r.value.offsetStart
      && r.value.xrefStart < r.value.startXrefStart
      && r.value.startXrefStart + 11 <= r.value.startXrefEnd < |b|
      && b[r.value.startXrefEnd] == LF
  {
    var x := FirstMatch(b, XrefToken, 0);
    if x + 1 <= 0 then None
    else
      var s := FirstMatch(b, StartXrefToken, x + 1);
      MarkersFrom(x, FirstMatch(b, FirstEntryToken, x + 1), s, IndexOfByte(b, LF, s + 12))
  }

  /** The markers, given the results `x`, `o`, `s` of the three token searches and `e` of the
      line-feed search; `None` when one of them failed. */
  function MarkersFrom(x: int, o: int, s: int, e: int): (r: Option<Markers>)
    requires x >= 0
  {
    if o + 1 <= 0 || s + 1 <= 0 || e <= 0 then None
    else Some(Markers(x + 1, o + 1, s + 1, e))
  }

  /** The entry count declared by the header text between "xref" and the first entry. */
  function EntryCount(b: seq<u8>, m: Markers): (r: Option<int>)
  {
    HeaderCountAt(b, m.xrefStart, m.offsetStart)
  }

  /** The ten characters written over the entry field at `curr`: its value plus `base`. */
  function EntryField(buf: seq<u8>, curr: nat, base: int): (r: seq<u8>)
  {
    Render10(AddNumber(ParseField(buf, curr, curr + 10), base))
  }

  /** `buffer.indexOf(0x0A, curr + 1) + 1`: the start of the next line, or 0 when no line
      feed follows. */
  function NextLine(buf: seq<u8>, curr: nat): (r: nat)
  {
    IndexOfByte(buf, LF, curr + 1) + 1
  }

  /** The entry loop, `remaining` iterations from the field at `curr`, each reading the buffer
      as the previous iterations left it. */
  function PatchEntries(buf: seq<u8>, curr: nat, remaining: nat, base: int): (r: Result<seq<u8>>)
    ensures r.Ok? ==> |r.value| == |buf|
    decreases remaining
  {
    if remaining == 0 then Ok(buf)
    else
      match Store(buf, curr, EntryField(buf, curr, base))
      case RangeError => RangeError
      case Ok(next) => PatchEntries(next, NextLine(next, curr), remaining - 1, base)
  }

  /** The decimal text of the startxref value plus `base`. */
  function NewStartXref(buf: seq<u8>, m: Markers, base: int): (r: seq<u8>)
  {
    NumberToString(AddNumber(ParseField(buf, m.startXrefStart + 10, m.startXrefEnd), base))
  }

  /** The new startxref value written over the old one, then the end-of-file marker. */
  function PatchTrailer(buf: seq<u8>, m: Markers, base: int): (r: Result<seq<u8>>)
    ensures r.Ok? ==> |r.value| == |buf|
  {
    WriteTrailer(buf, m.startXrefStart + 10, NewStartXref(buf, m, base))
  }

  /** `buffer.set(text, at)` followed by `buffer.set(EOF_MARKER, at + text.length)`. */
  function WriteTrailer(buf: seq<u8>, at: nat, text: seq<u8>): (r: Result<seq<u8>>)
    ensures r.Ok? ==> |r.value| == |buf|
  {
    match Store(buf, at, text)
    case RangeError => RangeError
    case Ok(next) => Store(next, at + |text|, EofMarker)
  }

  /** What `fixPdfOffsets(b, base)` returns: the document with its table and trailer patched,
      or the document itself when a marker is missing or a write would run past the end. */
  function PatchPdf(b: seq<u8>, base: int): (r: seq<u8>)
    ensures |r| == |b|
  {
    match LocateMarkers(b)
    case None => b
    case Some(m) => PatchPdfAt(b, m, base)
  }

  /** What `fixPdfOffsets(b, base)` returns once it has found the markers `m`. */
  function PatchPdfAt(b: seq<u8>, m: Markers, base: int): (r: seq<u8>)
    ensures |r| == |b|
  {
    match PatchEntries(b, m.offsetStart, IterCount(EntryCount(b, m)), base)
    case RangeError => b
    case Ok(entries) =>
      match PatchTrailer(entries, m, base)
      case RangeError => b
      case Ok(patched) => patched
  }

  /** `fixPdfOffsets`: copies the document into a buffer, locates the markers, rewrites each
      entry field and the trailer in place, and returns the original document if a write
      throws. */
  method FixPdfOffsets(pdf: seq<u8>, offsetToAdd: nat) returns (result: seq<u8>)
    ensures result == PatchPdf(pdf, offsetToAdd)
  {
    var buffer := new u8[|pdf|](i requires 0 <= i < |pdf| => pdf[i]);
    assert buffer[..] == pdf;
    var found := FindMarkers(buffer);
    if found.None? {
      return pdf;
    }
    var m := found.value;
    HeaderCountLiteral(buffer[..], m.xrefStart, m.offsetStart);
    var count := HeaderCount(Slice(buffer[..], m.xrefStart, m.offsetStart));
    var ok := PatchEntriesInPlace(buffer, m.offsetStart, IterCount(count), offsetToAdd);
    if !ok {
      // a `buffer.set` threw; the catch returns the original document
      return pdf;
    }
    ok := PatchTrailerInPlace(buffer, m, offsetToAdd);
    if !ok {
      return pdf;
    }
    return buffer[..];
  }

  /** The marker search of `fixPdfOffsets`, on the buffer. */
  method FindMarkers(buffer: array<u8>) returns (found: Option<Markers>)
    ensures found == LocateMarkers(buffer[..])
  {
    var x := FindSubArrayIndex(buffer, XrefToken, 0);
    var xrefStart := x + 1;
    if xrefStart <= 0 {
      return None;
    }
    var o := FindSubArrayIndex(buffer, FirstEntryToken, xrefStart);
    var offsetStart := o + 1;
    var s := FindSubArrayIndex(buffer, StartXrefToken, xrefStart);
    var startXrefStart := s + 1;
    var startXrefEnd := IndexOfByte(buffer[..], LF, startXrefStart + 11);
    LocateMarkersFrom(buffer[..], x, o, s, startXrefEnd);
    if offsetStart <= 0 || startXrefStart <= 0 || startXrefEnd <= 0 {
      return None;
    }
    return Some(Markers(xrefStart, offsetStart, startXrefStart, startXrefEnd));
  }

  /** The marker search in terms of the results of its four searches. */
  lemma {:induction false} LocateMarkersFrom(b: seq<u8>, x: int, o: int, s: int, e: int)
    requires x == FirstMatch(b, XrefToken, 0) && x + 1 > 0
    requires o == FirstMatch(b, FirstEntryToken, x + 1) && s == FirstMatch(b, StartXrefToken, x + 1)
    requires e == IndexOfByte(b, LF, s + 12)
    ensures LocateMarkers(b) == MarkersFrom(x, o, s, e)
  {
  }

  /** The entry loop of `fixPdfOffsets`: `n` entry fields rewritten in place from `start`,
      each found on the line after the previous one; false when a `buffer.set` throws. */
  method PatchEntriesInPlace(buffer: array<u8>, start: nat, n: nat, base: int) returns (ok: bool)
    modifies buffer
    ensures ok == PatchEntries(old(buffer[..]), start, n, base).Ok?
    ensures ok ==> buffer[..] == PatchEntries(old(buffer[..]), start, n, base).value
  {
    var curr: nat := start;
    for i := 0 to n
      invariant PatchEntries(buffer[..], curr, n - i, base) == PatchEntries(old(buffer[..]), start, n, base)
    {
      ParseFieldLiteral(buffer[..], curr, curr + 10);
      var lineBytes := Slice(buffer[..], curr, curr + 10);
      var oldOffset := ParseInt(Trim(lineBytes));
      var newOffset := AddNumber(oldOffset, base);
      var newOffsetStr := Render10(newOffset);
      if curr + |newOffsetStr| > buffer.Length {
        return false;
      }
      SetBytes(buffer, curr, newOffsetStr);
      curr := NextLine(buffer[..], curr);
    }
    return true;
  }

  /** The trailer step of `fixPdfOffsets`: reads the startxref value and writes the new one
      and the end-of-file marker in place; false when a `buffer.set` throws. */
  method PatchTrailerInPlace(buffer: array<u8>, m: Markers, base: int) returns (ok: bool)
    modifies buffer
    ensures ok == PatchTrailer(old(buffer[..]), m, base).Ok?
    ensures ok ==> buffer[..] == PatchTrailer(old(buffer[..]), m, base).value
  {
    var at := m.startXrefStart + 10;
    ParseFieldLiteral(buffer[..], at, m.startXrefEnd);
    var oldStartXrefBytes := Slice(buffer[..], at, m.startXrefEnd);
    var oldStartXref := ParseInt(Trim(oldStartXrefBytes));
    var newStartXref := AddNumber(oldStartXref, base);
    var newStartXrefStr := NumberToString(newStartXref);
    assert newStartXrefStr == NewStartXref(buffer[..], m, base);
    ok := WriteTrailerInPlace(buffer, at, newStartXrefStr);
  }

  /** `buffer.set(text, at)` and then `buffer.set(EOF_MARKER, at + text.length)`; false when
      either throws. */
  method WriteTrailerInPlace(buffer: array<u8>, at: nat, text: seq<u8>) returns (ok: bool)
    modifies buffer
    ensures ok == WriteTrailer(old(buffer[..]), at, text).Ok?
    ensures ok ==> buffer[..] == WriteTrailer(old(buffer[..]), at, text).value
  {
    if at + |text| > buffer.Length {
      return false;
    }
    SetBytes(buffer, at, text);
    if at + |text| + |EofMarker| > buffer.Length {
      return false;
    }
    SetBytes(buffer, at + |text|, EofMarker);
    return true;
  }

  /** Each marker is the first occurrence of its token: "\nxref" from the start of the
      document, the first entry and "\nstartxref" from the 'x' of "xref" on. */
  lemma {:induction false} LocateMarkersSpec(b: seq<u8>)
    requires LocateMarkers(b).Some?
    ensures var m := LocateMarkers(b).value;
      && MatchAt(b, XrefToken, m.xrefStart - 1)
      && (forall i :: MatchAt(b, XrefToken, i) ==> m.xrefStart - 1 <= i)
      && MatchAt(b, FirstEntryToken, m.offsetStart - 1)
      && (forall i :: m.xrefStart <= i && MatchAt(b, FirstEntryToken, i) ==> m.offsetStart - 1 <= i)
      && MatchAt(b, StartXrefToken, m.startXrefStart - 1)
      && (forall i :: m.xrefStart <= i && MatchAt(b, StartXrefToken, i) ==> m.startXrefStart - 1 <= i)
  {
    var m := LocateMarkers(b).value;
    FirstMatchSpec(b, XrefToken, 0);
    FirstMatchSpec(b, FirstEntryToken, m.xrefStart);
    FirstMatchSpec(b, StartXrefToken, m.xrefStart);
  }

  /** No occurrence of `s` in `a` at or after `from`. */
  ghost predicate Absent(a: seq<u8>, s: seq<u8>, from: int)
  {
    forall i :: from <= i ==> !MatchAt(a, s, i)
  }

  /** The document comes back unchanged when "\nxref" is missing, or when after it the first
      entry, "\nstartxref" or the line feed after the startxref value is missing. */
  lemma {:induction false} PdfFailOpen(b: seq<u8>, base: int)
    requires
      var xrefStart := FirstMatch(b, XrefToken, 0) + 1;
      var startXrefStart := FirstMatch(b, StartXrefToken, xrefStart) + 1;
      || Absent(b, XrefToken, 0)
      || Absent(b, FirstEntryToken, xrefStart)
      || Absent(b, StartXrefToken, xrefStart)
      || IndexOfByte(b, LF, startXrefStart + 11) < 0
    ensures PatchPdf(b, base) == b
  {
    var xrefStart := FirstMatch(b, XrefToken, 0) + 1;
    FirstMatchSpec(b, XrefToken, 0);
    FirstMatchSpec(b, FirstEntryToken, xrefStart);
    FirstMatchSpec(b, StartXrefToken, xrefStart);
    assert LocateMarkers(b).None?;
  }

  /** The `n` table entries from `c` on are ten-digit fields that end at or before `limit`,
      and each but the last is followed by a line feed that starts the next entry's line. */
  predicate TableWellFormed(b: seq<u8>, c: nat, n: nat, limit: nat)
    decreases n
  {
    n == 0 ||
    (&& c + 10 <= limit <= |b|
     && DigitsBetween(b, c, c + 10)
     && (n > 1 ==> IndexOfByte(b, LF, c + 1) >= 0 && TableWellFormed(b, NextLine(b, c), n - 1, limit)))
  }

  /** The offsets of the `n` entry fields the loop visits from `c`, following the line feeds
      of the unpatched document. */
  function EntryCursors(b: seq<u8>, c: nat, n: nat): (cs: seq<nat>)
    ensures |cs| == n && (n > 0 ==> cs[0] == c)
    decreases n
  {
    if n == 0 then [] else [c] + EntryCursors(b, NextLine(b, c), n - 1)
  }

  /** The entry rewrites as a list of writes, each computed from the unpatched document. */
  function EntryPatches(b: seq<u8>, cs: seq<nat>, base: int): (ps: seq<Patch>)
    ensures |ps| == |cs|
    decreases |cs|
  {
    if cs == [] then [] else [Patch(cs[0], EntryField(b, cs[0], base))] + EntryPatches(b, cs[1..], base)
  }

  /** The `i`th entry write puts the rewritten field at the `i`th offset. */
  lemma {:induction false} EntryPatchesAt(b: seq<u8>, cs: seq<nat>, base: int, i: nat)
    requires i < |cs|
    ensures EntryPatches(b, cs, base)[i] == Patch(cs[i], EntryField(b, cs[i], base))
    decreases i
  {
    if i > 0 {
      EntryPatchesAt(b, cs[1..], base, i - 1);
    }
  }

  /** Every entry write is ten bytes long and sits at its offset. */
  lemma {:induction false} EntryPatchesShape(b: seq<u8>, cs: seq<nat>, base: int)
    ensures var ps := EntryPatches(b, cs, base);
      forall i :: 0 <= i < |cs| ==> ps[i].at == cs[i] && |ps[i].data| == 10
    decreases |cs|
  {
    if cs != [] {
      var ps := EntryPatches(b, cs, base);
      var rest := EntryPatches(b, cs[1..], base);
      EntryPatchesShape(b, cs[1..], base);
      forall i | 0 <= i < |cs| ensures ps[i].at == cs[i] && |ps[i].data| == 10 {
        if i > 0 {
          assert ps[i] == rest[i - 1];
        }
      }
    }
  }

  /** The line feed after a ten-digit field lies past the field. */
  lemma {:induction false} NextLineAfterDigits(b: seq<u8>, c: nat)
    requires DigitsBetween(b, c, c + 10)
    ensures IndexOfByte(b, LF, c + 1) >= 0 ==> NextLine(b, c) > c + 10
  {
  }

  /** Every offset of `cs` starts a ten-digit field that ends by `limit`. */
  predicate FieldsWithin(b: seq<u8>, cs: seq<nat>, limit: nat)
  {
    forall i :: 0 <= i < |cs| ==> cs[i] + 10 <= limit <= |b| && DigitsBetween(b, cs[i], cs[i] + 10)
  }

  /** Each field of `cs` ends before the next one starts. */
  predicate FieldsApart(cs: seq<nat>)
  {
    forall i :: 0 <= i < |cs| - 1 ==> cs[i] + 10 < cs[i + 1]
  }

  /** In a well-formed table the entry fields lie one after the other, each on its own line,
      inside the document and before `limit`. */
  lemma {:induction false} CursorsShape(b: seq<u8>, c: nat, n: nat, limit: nat)
    requires TableWellFormed(b, c, n, limit)
    ensures FieldsWithin(b, EntryCursors(b, c, n), limit)
    ensures FieldsApart(EntryCursors(b, c, n))
    decreases n
  {
    var cs := EntryCursors(b, c, n);
    if n > 1 {
      var nx := NextLine(b, c);
      NextLineAfterDigits(b, c);
      var rest := EntryCursors(b, nx, n - 1);
      CursorsShape(b, nx, n - 1, limit);
      assert cs == [c] + rest;
      forall i | 0 <= i < n
        ensures cs[i] + 10 <= limit <= |b| && DigitsBetween(b, cs[i], cs[i] + 10)
      {
        if i > 0 {
          assert cs[i] == rest[i - 1];
        }
      }
      forall i | 0 <= i < n - 1 ensures cs[i] + 10 < cs[i + 1] {
        assert cs[i + 1] == rest[i];
        if i > 0 {
          assert cs[i] == rest[i - 1];
        }
      }
    } else if n == 1 {
      assert cs == [c];
    }
  }

  /** An entry field is computed from the ten bytes at its offset alone. */
  lemma {:induction false} EntryFieldLocal(buf: seq<u8>, b: seq<u8>, c: nat, base: int)
    requires Agree(buf, b, 0, c, c + 10)
    ensures EntryField(buf, c, base) == EntryField(b, c, base)
  {
    ParseIntInShift(buf, b, 0, c, c + 10);
  }

  /** Writing ten characters without a line feed over a ten-digit field leaves the start of
      the next line where it was. */
  lemma {:induction false} NextLineAfterWrite(buf: seq<u8>, b: seq<u8>, c: nat, w: seq<u8>)
    requires |buf| == |b| && c + 10 <= |b| && |w| == 10 && NoLineFeed(w)
    requires forall k :: c <= k < |b| ==> buf[k] == b[k]
    requires DigitsBetween(b, c, c + 10)
    ensures NextLine(Stored(buf, c, w), c) == NextLine(b, c)
  {
    var buf1 := Stored(buf, c, w);
    IndexOfByteAgree(buf1, b, LF, c + 1);
  }

  /** The field written at `c` depends only on the unpatched bytes there: ten characters
      without a line feed. */
  lemma {:induction false} EntryFieldShape(buf: seq<u8>, b: seq<u8>, c: nat, base: int)
    requires Agree(buf, b, 0, c, c + 10)
    ensures EntryField(buf, c, base) == EntryField(b, c, base)
    ensures |EntryField(b, c, base)| == 10 && NoLineFeed(EntryField(b, c, base))
  {
    Render10Shape(AddNumber(ParseField(b, c, c + 10), base));
    EntryFieldLocal(buf, b, c, base);
  }

  /** One iteration of the entry loop on a buffer whose bytes from `c` on are still the
      unpatched ones: it writes the field computed from the unpatched document and moves on
      to the line after it. */
  lemma {:induction false} EntryStep(buf: seq<u8>, b: seq<u8>, c: nat, n: nat, base: int)
    requires n > 0 && |buf| == |b| && c + 10 <= |b|
    requires forall k :: c <= k < |b| ==> buf[k] == b[k]
    requires DigitsBetween(b, c, c + 10)
    ensures |EntryField(b, c, base)| == 10
    ensures PatchEntries(buf, c, n, base)
      == PatchEntries(Stored(buf, c, EntryField(b, c, base)), NextLine(b, c), n - 1, base)
  {
    EntryFieldShape(buf, b, c, base);
    NextLineAfterWrite(buf, b, c, EntryField(b, c, base));
  }

  /** The entry writes from `c` are the write at `c` followed by those from the next line. */
  lemma {:induction false} EntryPatchesCons(b: seq<u8>, c: nat, n: nat, base: int)
    requires n > 0
    ensures EntryPatches(b, EntryCursors(b, c, n), base)
      == [Patch(c, EntryField(b, c, base))] + EntryPatches(b, EntryCursors(b, NextLine(b, c), n - 1), base)
  {
    var cs := EntryCursors(b, c, n);
    assert cs[1..] == EntryCursors(b, NextLine(b, c), n - 1);
  }

  /** The in-place loop equals the list of writes computed from the unpatched document, as
      long as the part of the buffer it has not reached yet is still unpatched. */
  lemma {:induction false} EntriesAsPatches(buf: seq<u8>, b: seq<u8>, c: nat, n: nat, limit: nat, base: int)
    requires |buf| == |b|
    requires forall k :: c <= k < |b| ==> buf[k] == b[k]
    requires TableWellFormed(b, c, n, limit)
    ensures Fits(|b|, EntryPatches(b, EntryCursors(b, c, n), base))
    ensures PatchEntries(buf, c, n, base) == Ok(ApplyPatches(buf, EntryPatches(b, EntryCursors(b, c, n), base)))
    decreases n
  {
    if n > 0 {
      var w := EntryField(b, c, base);
      EntryStep(buf, b, c, n, base);
      EntryPatchesCons(b, c, n, base);
      var buf1 := Stored(buf, c, w);
      var nx := NextLine(b, c);
      var ps := EntryPatches(b, EntryCursors(b, c, n), base);
      var rest := EntryPatches(b, EntryCursors(b, nx, n - 1), base);
      if n > 1 {
        NextLineAfterDigits(b, c);
        EntriesAsPatches(buf1, b, nx, n - 1, limit, base);
      } else {
        assert rest == [];
      }
      assert ps[1..] == rest;
      assert Fits(|b|, ps) by {
        forall i | 0 <= i < |ps| ensures ps[i].at + |ps[i].data| <= |b| {
          if i > 0 {
            assert ps[i] == rest[i - 1];
          }
        }
      }
    }
  }

  /** The startxref value still fits, with the end-of-file marker after it. */
  predicate TrailerFits(b: seq<u8>, m: Markers, base: int)
  {
    m.startXrefStart + 10 + |NewStartXref(b, m, base)| + |EofMarker| <= |b|
  }

  /** The markers are found, and the entry fields they announce are well formed and lie
      before the "startxref" line. */
  predicate TableFound(b: seq<u8>)
  {
    && LocateMarkers(b).Some?
    && var m := LocateMarkers(b).value;
    && TableWellFormed(b, m.offsetStart, IterCount(EntryCount(b, m)), m.startXrefStart)
  }

  /** The table is well formed, lies before the "startxref" line, and the new trailer fits. */
  predicate WellFormedPdf(b: seq<u8>, base: int)
  {
    TableFound(b) && TrailerFits(b, LocateMarkers(b).value, base)
  }

  /** The offsets of the entry fields the loop visits; none when a marker is missing. */
  function EntryPositions(b: seq<u8>): (r: seq<nat>)
  {
    match LocateMarkers(b)
    case None => []
    case Some(m) => EntryCursors(b, m.offsetStart, IterCount(EntryCount(b, m)))
  }

  /** Where the new startxref text goes: ten bytes after the 's' of "startxref", that is past
      the keyword and the one byte after it, normally its line feed. */
  function TrailerAt(b: seq<u8>): (r: nat)
  {
    match LocateMarkers(b)
    case None => 0
    case Some(m) => m.startXrefStart + 10
  }

  /** The startxref value as the patcher reads it. */
  function StartXrefValue(b: seq<u8>): (r: Option<int>)
  {
    match LocateMarkers(b)
    case None => None
    case Some(m) => ParseField(b, m.startXrefStart + 10, m.startXrefEnd)
  }

  /** The new startxref text: the old value plus `base`, in decimal. */
  function TrailerText(b: seq<u8>, base: int): (r: seq<u8>)
  {
    NumberToString(AddNumber(StartXrefValue(b), base))
  }

  /** The trailer rewrites: the startxref text `t` at `at` and the end-of-file marker
      after it. */
  function TrailerWrites(at: nat, t: seq<u8>): (r: seq<Patch>)
  {
    [Patch(at, t), Patch(at + |t|, EofMarker)]
  }

  /** The two trailer writes succeed exactly when both fit, and then they are the trailer
      writes carried out one after the other. */
  lemma {:induction false} WriteTrailerAsPatches(buf: seq<u8>, at: nat, t: seq<u8>)
    ensures at + |t| + |EofMarker| <= |buf| ==>
      Fits(|buf|, TrailerWrites(at, t)) && WriteTrailer(buf, at, t) == Ok(ApplyPatches(buf, TrailerWrites(at, t)))
    ensures at + |t| + |EofMarker| > |buf| ==> WriteTrailer(buf, at, t) == RangeError
  {
    var qs := TrailerWrites(at, t);
    if at + |t| + |EofMarker| <= |buf| {
      assert qs[1..][1..] == [];
      var buf1 := Stored(buf, at, t);
      var buf2 := Stored(buf1, at + |t|, EofMarker);
      assert ApplyPatches(buf, qs) == ApplyPatches(buf1, qs[1..]);
      assert ApplyPatches(buf1, qs[1..]) == ApplyPatches(buf2, []);
    }
  }

  /** The entry writes end before the "startxref" line, so they do not change the bytes the
      trailer step reads. */
  lemma {:induction false} EntriesKeepTrailer(b: seq<u8>, ps: seq<Patch>, m: Markers, base: int)
    requires WritesBefore(|b|, ps, m.startXrefStart)
    ensures NewStartXref(ApplyPatches(b, ps), m, base) == NewStartXref(b, m, base)
  {
    var entries := ApplyPatches(b, ps);
    forall k | m.startXrefStart <= k < |b| ensures entries[k] == b[k] {
      ApplyPatchesUntouched(b, ps, k);
    }
    ParseFieldAgree(entries, b, m.startXrefStart + 10, m.startXrefEnd);
  }

  /** Fields that lie one after another give ascending writes that end by `limit`. */
  lemma {:induction false} EntryPatchesAscending(b: seq<u8>, cs: seq<nat>, limit: nat, base: int)
    requires FieldsWithin(b, cs, limit) && FieldsApart(cs)
    ensures WritesBefore(|b|, EntryPatches(b, cs, base), limit)
  {
    EntryPatchesShape(b, cs, base);
  }

  /** The entry loop on a well-formed table carries out the entry writes: ascending, inside
      the document and before the "startxref" line. */
  lemma {:induction false} PdfEntriesStage(b: seq<u8>, base: int, m: Markers)
    requires TableWellFormed(b, m.offsetStart, IterCount(EntryCount(b, m)), m.startXrefStart)
    ensures var ps := EntryPatches(b, EntryCursors(b, m.offsetStart, IterCount(EntryCount(b, m))), base);
      && WritesBefore(|b|, ps, m.startXrefStart)
      && PatchEntries(b, m.offsetStart, IterCount(EntryCount(b, m)), base) == Ok(ApplyPatches(b, ps))
  {
    var n := IterCount(EntryCount(b, m));
    CursorsShape(b, m.offsetStart, n, m.startXrefStart);
    EntryPatchesAscending(b, EntryCursors(b, m.offsetStart, n), m.startXrefStart, base);
    EntriesAsPatches(b, b, m.offsetStart, n, m.startXrefStart, base);
  }

  /** After entry writes that end before the "startxref" line, the trailer step reads the
      unpatched startxref value; it then carries out the trailer writes when they fit and
      throws when they do not. */
  lemma {:induction false} TrailerAfterEntries(b: seq<u8>, ps: seq<Patch>, m: Markers, base: int)
    requires WritesBefore(|b|, ps, m.startXrefStart)
    ensures var entries := ApplyPatches(b, ps);
      var qs := TrailerWrites(m.startXrefStart + 10, NewStartXref(b, m, base));
      && (TrailerFits(b, m, base) ==>
            Fits(|b|, qs) && PatchTrailer(entries, m, base) == Ok(ApplyPatches(entries, qs)))
      && (!TrailerFits(b, m, base) ==> PatchTrailer(entries, m, base) == RangeError)
  {
    var entries := ApplyPatches(b, ps);
    var at, t := m.startXrefStart + 10, NewStartXref(b, m, base);
    EntriesKeepTrailer(b, ps, m, base);
    assert PatchTrailer(entries, m, base) == WriteTrailer(entries, at, t);
    WriteTrailerAsPatches(entries, at, t);
  }

  /** The writes of a table whose entry fields start at `cs` and whose new startxref text `t`
      goes to `at`. */
  function TableWrites(b: seq<u8>, cs: seq<nat>, at: nat, t: seq<u8>, base: int): (r: seq<Patch>)
  {
    EntryPatches(b, cs, base) + TrailerWrites(at, t)
  }

  /** Ten-digit entry fields at `cs` that lie one after another before `at`, and a trailer
      text `t` at `at` that fits with the end-of-file marker after it. */
  predicate TableShape(b: seq<u8>, cs: seq<nat>, at: nat, t: seq<u8>)
  {
    && FieldsApart(cs)
    && (forall i :: 0 <= i < |cs| ==> cs[i] + 10 <= at && DigitsBetween(b, cs[i], cs[i] + 10))
    && at + |t| + |EofMarker| <= |b|
  }

  /** The writes of a table of that shape are ascending and inside the document. */
  lemma {:induction false} TableWritesAscending(b: seq<u8>, cs: seq<nat>, at: nat, t: seq<u8>, base: int)
    requires TableShape(b, cs, at, t)
    ensures Fits(|b|, TableWrites(b, cs, at, t, base)) && Ascending(TableWrites(b, cs, at, t, base))
  {
    var ps := EntryPatches(b, cs, base);
    var qs := TrailerWrites(at, t);
    var all := ps + qs;
    EntryPatchesAscending(b, cs, at, base);
    forall i | 0 <= i < |all| ensures all[i].at + |all[i].data| <= |b| {
      if i < |ps| {
        assert all[i] == ps[i];
      } else {
        assert all[i] == qs[i - |ps|];
      }
    }
    forall i | 0 <= i < |all| - 1 ensures all[i].at + |all[i].data| <= all[i + 1].at {
      if i < |ps| - 1 {
        assert all[i] == ps[i] && all[i + 1] == ps[i + 1];
      } else if i == |ps| - 1 {
        assert all[i] == ps[i] && all[i + 1] == qs[0];
      } else {
        assert all[i] == qs[0] && all[i + 1] == qs[1];
      }
    }
  }

  /** The document after the table writes, each computed from the unpatched document. */
  function TablePatched(b: seq<u8>, cs: seq<nat>, at: nat, t: seq<u8>, base: int): (r: seq<u8>)
  {
    ApplyPatches(b, TableWrites(b, cs, at, t, base))
  }

  /** The entry fields of a well-formed document lie one after another before the
      "startxref" line, and the new trailer fits. */
  lemma {:induction false} PdfTableShape(b: seq<u8>, base: int)
    requires WellFormedPdf(b, base)
    ensures TableShape(b, EntryPositions(b), TrailerAt(b), TrailerText(b, base))
  {
    var m := LocateMarkers(b).value;
    CursorsShape(b, m.offsetStart, IterCount(EntryCount(b, m)), m.startXrefStart);
  }

  /** The document the patcher builds from a well-formed one: the table writes carried out
      on the unpatched document. */
  function StaticPatch(b: seq<u8>, base: int): (r: seq<u8>)
  {
    TablePatched(b, EntryPositions(b), TrailerAt(b), TrailerText(b, base), base)
  }

  /** When the entry loop carries out writes `ps` that end before the "startxref" line and
      the new trailer fits, the patcher carries out `ps` and then the trailer writes, all
      computed from the unpatched document. */
  lemma {:induction false} PatchPdfInStages(b: seq<u8>, base: int, m: Markers, ps: seq<Patch>)
    requires TrailerFits(b, m, base) && WritesBefore(|b|, ps, m.startXrefStart)
    requires PatchEntries(b, m.offsetStart, IterCount(EntryCount(b, m)), base) == Ok(ApplyPatches(b, ps))
    ensures PatchPdfAt(b, m, base) == ApplyPatches(ApplyPatches(b, ps), TrailerWrites(m.startXrefStart + 10, NewStartXref(b, m, base)))
  {
    TrailerAfterEntries(b, ps, m, base);
  }

  /** The entry offsets, the trailer offset and the trailer text of a document, in terms
      of its markers. */
  lemma {:induction false} PositionsOfMarkers(b: seq<u8>, base: int, m: Markers)
    requires LocateMarkers(b) == Some(m)
    ensures EntryPositions(b) == EntryCursors(b, m.offsetStart, IterCount(EntryCount(b, m)))
    ensures TrailerAt(b) == m.startXrefStart + 10
    ensures TrailerText(b, base) == NewStartXref(b, m, base)
  {
  }

  /** Once the markers `m` are found, on a well-formed table whose new trailer fits, the
      patcher carries out the entry writes followed by the trailer writes, all computed from
      the unpatched document. */
  lemma {:induction false} PatchPdfAtAsPatches(b: seq<u8>, base: int, m: Markers)
    requires TableWellFormed(b, m.offsetStart, IterCount(EntryCount(b, m)), m.startXrefStart)
    requires TrailerFits(b, m, base)
    ensures PatchPdfAt(b, m, base) ==
      ApplyPatches(b, EntryPatches(b, EntryCursors(b, m.offsetStart, IterCount(EntryCount(b, m))), base)
                      + TrailerWrites(m.startXrefStart + 10, NewStartXref(b, m, base)))
  {
    var ps := EntryPatches(b, EntryCursors(b, m.offsetStart, IterCount(EntryCount(b, m))), base);
    PdfEntriesStage(b, base, m);
    PatchPdfInStages(b, base, m, ps);
    ApplyPatchesAppend(b, ps, TrailerWrites(m.startXrefStart + 10, NewStartXref(b, m, base)));
  }

  /** Static form of the patcher: on a well-formed document, patching in place gives the same
      bytes as carrying out, one after the other, the table writes that are all computed from
      the unpatched document. */
  lemma {:induction false} PatchPdfAsPatches(b: seq<u8>, base: int)
    requires WellFormedPdf(b, base)
    ensures PatchPdf(b, base) == StaticPatch(b, base)
  {
    var m := LocateMarkers(b).value;
    var cs, t := EntryCursors(b, m.offsetStart, IterCount(EntryCount(b, m))), NewStartXref(b, m, base);
    PositionsOfMarkers(b, base, m);
    assert StaticPatch(b, base) == TablePatched(b, cs, m.startXrefStart + 10, t, base);
    PatchPdfFound(b, base, m);
    PatchPdfAtAsPatches(b, base, m);
  }

  /** Offset `k` lies inside one of the ten-byte entry fields starting at `cs`. */
  predicate InEntryField(cs: seq<nat>, k: int)
  {
    exists i :: 0 <= i < |cs| && cs[i] <= k < cs[i] + 10
  }

  /** After the table writes, the `i`th entry field holds the field rewritten from the
      unpatched one. */
  lemma {:induction false} TableEntryWritten(b: seq<u8>, cs: seq<nat>, at: nat, t: seq<u8>, base: int, i: nat)
    requires TableShape(b, cs, at, t) && i < |cs|
    ensures TablePatched(b, cs, at, t, base)[cs[i]..cs[i] + 10] == EntryField(b, cs[i], base)
  {
    var ps := TableWrites(b, cs, at, t, base);
    TableWritesAscending(b, cs, at, t, base);
    EntryPatchesAt(b, cs, base, i);
    EntryFieldShape(b, b, cs[i], base);
    assert ps[i] == Patch(cs[i], EntryField(b, cs[i], base));
    ApplyPatchesWritten(b, ps, i);
  }

  /** After the table writes, the startxref text sits at `at` and the end-of-file marker
      right after it. */
  lemma {:induction false} TableTrailerWritten(b: seq<u8>, cs: seq<nat>, at: nat, t: seq<u8>, base: int)
    requires TableShape(b, cs, at, t)
    ensures TablePatched(b, cs, at, t, base)[at..at + |t|] == t
    ensures TablePatched(b, cs, at, t, base)[at + |t|..at + |t| + |EofMarker|] == EofMarker
  {
    var ps := TableWrites(b, cs, at, t, base);
    var n := |EntryPatches(b, cs, base)|;
    TableWritesAscending(b, cs, at, t, base);
    var r := TablePatched(b, cs, at, t, base);
    assert r == ApplyPatches(b, ps);
    assert ps[n] == Patch(at, t);
    ApplyPatchesWritten(b, ps, n);
    assert r[at..at + |t|] == t;
    assert ps[n + 1] == Patch(at + |t|, EofMarker);
    ApplyPatchesWritten(b, ps, n + 1);
  }

  /** After the table writes, a byte outside every entry field and outside the trailer is the
      original one. */
  lemma {:induction false} TableOutsideUnchanged(b: seq<u8>, cs: seq<nat>, at: nat, t: seq<u8>, base: int, k: nat)
    requires TableShape(b, cs, at, t)
    requires k < |b| && !InEntryField(cs, k) && !(at <= k < at + |t| + |EofMarker|)
    ensures TablePatched(b, cs, at, t, base)[k] == b[k]
  {
    var ps := EntryPatches(b, cs, base);
    var all := TableWrites(b, cs, at, t, base);
    TableWritesAscending(b, cs, at, t, base);
    EntryPatchesShape(b, cs, base);
    forall i | 0 <= i < |all| ensures !(all[i].at <= k < all[i].at + |all[i].data|) {
      if i < |ps| {
        assert all[i] == ps[i];
      } else {
        assert all[i] == TrailerWrites(at, t)[i - |ps|];
      }
    }
    ApplyPatchesUntouched(b, all, k);
  }

  /** Each entry field at `cs` holds its value rewritten from the unpatched document. */
  predicate EntriesWritten(b: seq<u8>, cs: seq<nat>, base: int, r: seq<u8>)
  {
    forall i :: 0 <= i < |cs| ==> cs[i] + 10 <= |r| && r[cs[i]..cs[i] + 10] == EntryField(b, cs[i], base)
  }

  /** The startxref text `t` sits at `at`, followed by "\n%%EOF\n". */
  predicate TrailerWritten(at: nat, t: seq<u8>, r: seq<u8>)
  {
    && at + |t| + |EofMarker| <= |r|
    && r[at..at + |t|] == t
    && r[at + |t|..at + |t| + |EofMarker|] == EofMarker
  }

  /** `r` has the length of `b`, and every byte outside the entry fields at `cs` and outside
      the trailer text `t` at `at` and its end-of-file marker is the one of `b`. */
  predicate OthersKept(b: seq<u8>, cs: seq<nat>, at: nat, t: seq<u8>, r: seq<u8>)
  {
    && |r| == |b|
    && forall k :: 0 <= k < |b| && !InEntryField(cs, k) && !(at <= k < at + |t| + |EofMarker|) ==> r[k] == b[k]
  }

  /** `r` is `b` with the table rewritten. */
  predicate LaidOut(b: seq<u8>, cs: seq<nat>, at: nat, t: seq<u8>, base: int, r: seq<u8>)
  {
    EntriesWritten(b, cs, base, r) && TrailerWritten(at, t, r) && OthersKept(b, cs, at, t, r)
  }

  /** The table writes lay the document out as described. */
  lemma {:induction false} TableLayout(b: seq<u8>, cs: seq<nat>, at: nat, t: seq<u8>, base: int)
    requires TableShape(b, cs, at, t)
    ensures LaidOut(b, cs, at, t, base, TablePatched(b, cs, at, t, base))
  {
    var r := TablePatched(b, cs, at, t, base);
    forall i | 0 <= i < |cs| ensures cs[i] + 10 <= |r| && r[cs[i]..cs[i] + 10] == EntryField(b, cs[i], base) {
      TableEntryWritten(b, cs, at, t, base, i);
    }
    TableTrailerWritten(b, cs, at, t, base);
    forall k | 0 <= k < |b| && !InEntryField(cs, k) && !(at <= k < at + |t| + |EofMarker|)
      ensures r[k] == b[k]
    {
      TableOutsideUnchanged(b, cs, at, t, base, k);
    }
  }

  /** Layout of a patched well-formed document: each entry field holds its rewritten value,
      the new startxref text is followed by "\n%%EOF\n", and no other byte changes. */
  lemma {:induction false} PdfPatchedLayout(b: seq<u8>, base: int)
    requires WellFormedPdf(b, base)
    ensures LaidOut(b, EntryPositions(b), TrailerAt(b), TrailerText(b, base), base, PatchPdf(b, base))
  {
    PdfTableShape(b, base);
    PatchPdfAsPatches(b, base);
    TableLayout(b, EntryPositions(b), TrailerAt(b), TrailerText(b, base), base);
  }

  /** A ten-digit entry field whose value plus `base` still has ten digits is rewritten as ten
      digits that read back as that sum. */
  lemma {:induction false} EntryFieldShifted(b: seq<u8>, c: nat, base: nat)
    requires DigitsBetween(b, c, c + 10)
    requires DigitsIn(b, c, c + 10) + base < TenDigitLimit
    ensures AllDigits(EntryField(b, c, base))
    ensures ParseInt(EntryField(b, c, base)) == Some(DigitsIn(b, c, c + 10) + base)
  {
    ParseDigitsIn(b, c, c + 10);
    Render10RoundTrip(DigitsIn(b, c, c + 10) + base);
  }

  /** The entry field at `c` holds ten digits that read as the old value plus `base`, when
      that sum still has ten digits. */
  predicate EntryShifted(b: seq<u8>, c: nat, base: int, r: seq<u8>)
  {
    && c + 10 <= |b| && DigitsBetween(b, c, c + 10)
    && (DigitsIn(b, c, c + 10) + base < TenDigitLimit ==>
          && c + 10 <= |r|
          && DigitsBetween(r, c, c + 10)
          && ParseField(r, c, c + 10) == Some(DigitsIn(b, c, c + 10) + base))
  }

  /** An entry field rewritten from ten digits reads as its old value plus `base`. */
  lemma {:induction false} WrittenEntryShifted(b: seq<u8>, c: nat, base: nat, r: seq<u8>)
    requires c + 10 <= |b| && DigitsBetween(b, c, c + 10)
    requires c + 10 <= |r| && r[c..c + 10] == EntryField(b, c, base)
    ensures EntryShifted(b, c, base, r)
  {
    if DigitsIn(b, c, c + 10) + base < TenDigitLimit {
      EntryFieldShifted(b, c, base);
      FieldReads(r, c, EntryField(b, c, base));
    }
  }

  /** Every written entry field of ten digits reads as its old value plus `base`. */
  lemma {:induction false} EntriesShifted(b: seq<u8>, cs: seq<nat>, at: nat, t: seq<u8>, base: nat, r: seq<u8>)
    requires TableShape(b, cs, at, t) && EntriesWritten(b, cs, base, r)
    ensures forall i :: 0 <= i < |cs| ==> EntryShifted(b, cs[i], base, r)
  {
    forall i | 0 <= i < |cs| ensures EntryShifted(b, cs[i], base, r) {
      WrittenEntryShifted(b, cs[i], base, r);
    }
  }

  /** Offset correctness: in a patched well-formed document, every entry field whose new value
      still has ten digits holds ten digits that read as its old value plus `base`. */
  lemma {:induction false} PdfEntriesShifted(b: seq<u8>, base: nat)
    requires WellFormedPdf(b, base)
    ensures forall i :: 0 <= i < |EntryPositions(b)| ==> EntryShifted(b, EntryPositions(b)[i], base, PatchPdf(b, base))
  {
    PdfTableShape(b, base);
    PdfPatchedLayout(b, base);
    EntriesShifted(b, EntryPositions(b), TrailerAt(b), TrailerText(b, base), base, PatchPdf(b, base));
  }

  /** In a patched well-formed document the new startxref text and the end-of-file marker
      start ten bytes after the 's' of "startxref", past the keyword and the byte after it. */
  lemma {:induction false} PdfTrailerWritten(b: seq<u8>, base: int)
    requires WellFormedPdf(b, base)
    ensures TrailerWritten(TrailerAt(b), TrailerText(b, base), PatchPdf(b, base))
  {
    PdfPatchedLayout(b, base);
  }

  /** The startxref text `t` at `at` reads as `before + base` when the old value was read,
      and a line feed follows it. */
  predicate StartXrefShifted(at: nat, t: seq<u8>, before: Option<int>, base: int, r: seq<u8>)
  {
    && at + |t| < |r|
    && r[at + |t|] == LF
    && (before.Some? ==> ParseField(r, at, at + |t|) == Some(before.value + base))
  }

  /** The trailer text of `before + base`, once written, reads as `before + base`, and the
      end-of-file marker puts a line feed after it. */
  lemma {:induction false} WrittenStartXrefShifted(at: nat, t: seq<u8>, before: Option<int>, base: int, r: seq<u8>)
    requires t == NumberToString(AddNumber(before, base)) && TrailerWritten(at, t, r)
    ensures StartXrefShifted(at, t, before, base, r)
  {
    FieldReads(r, at, t);
    if before.Some? {
      ParseNumberToString(before.value + base);
    }
    assert r[at + |t|] == r[at + |t|..at + |t| + |EofMarker|][0];
  }

  /** Offset correctness of the trailer: the startxref value of a patched well-formed document
      reads as the old value plus `base`, and a line feed follows it. */
  lemma {:induction false} PdfStartXrefShifted(b: seq<u8>, base: int)
    requires WellFormedPdf(b, base)
    ensures StartXrefShifted(TrailerAt(b), TrailerText(b, base), StartXrefValue(b), base, PatchPdf(b, base))
  {
    PdfTrailerWritten(b, base);
    WrittenStartXrefShifted(TrailerAt(b), TrailerText(b, base), StartXrefValue(b), base, PatchPdf(b, base));
  }

  /** All or nothing: when the table could be patched but the new trailer does not fit, the
      in-place edits to the entries are discarded and the document comes back unchanged. */
  lemma {:induction false} PdfTrailerOverrunKeepsInput(b: seq<u8>, base: int)
    requires TableFound(b)
    requires !TrailerFits(b, LocateMarkers(b).value, base)
    ensures PatchPdf(b, base) == b
  {
    var m := LocateMarkers(b).value;
    var ps := EntryPatches(b, EntryCursors(b, m.offsetStart, IterCount(EntryCount(b, m))), base);
    PdfEntriesStage(b, base, m);
    TrailerAfterEntries(b, ps, m, base);
  }

  /** The catch in full, once the markers `m` are found (`PdfFailOpen` covers the document
      without them): the document comes back unchanged when an entry write runs past the
      end, and any other result ends with the new startxref text followed by "\n%%EOF\n", so
      no document is returned with its entries rewritten but its trailer not. */
  lemma {:induction false} PdfAllOrNothing(b: seq<u8>, base: int, m: Markers)
    requires LocateMarkers(b) == Some(m)
    ensures var entries := PatchEntries(b, m.offsetStart, IterCount(EntryCount(b, m)), base);
      && (entries.RangeError? ==> PatchPdf(b, base) == b)
      && (PatchPdf(b, base) != b ==>
            && entries.Ok?
            && TrailerWritten(m.startXrefStart + 10, NewStartXref(entries.value, m, base), PatchPdf(b, base)))
  {
    PatchPdfFound(b, base, m);
    PatchPdfAtAllOrNothing(b, m, base, PatchEntries(b, m.offsetStart, IterCount(EntryCount(b, m)), base));
  }

  /** Once the markers `m` are found, `fixPdfOffsets` goes on as `PatchPdfAt`. */
  lemma PatchPdfFound(b: seq<u8>, base: int, m: Markers)
    requires LocateMarkers(b) == Some(m)
    ensures PatchPdf(b, base) == PatchPdfAt(b, m, base)
  {
  }

  /** The catch once the markers `m` are found, for the result `entries` of the entry loop. */
  lemma {:induction false} PatchPdfAtAllOrNothing(b: seq<u8>, m: Markers, base: int, entries: Result<seq<u8>>)
    requires entries == PatchEntries(b, m.offsetStart, IterCount(EntryCount(b, m)), base)
    ensures entries.RangeError? ==> PatchPdfAt(b, m, base) == b
    ensures PatchPdfAt(b, m, base) != b ==>
      && entries.Ok?
      && TrailerWritten(m.startXrefStart + 10, NewStartXref(entries.value, m, base), PatchPdfAt(b, m, base))
  {
    if entries.Ok? {
      var trailer := PatchTrailer(entries.value, m, base);
      if trailer.Ok? {
        assert PatchPdfAt(b, m, base) == trailer.value;
        PatchTrailerWritten(entries.value, m, base);
      } else {
        assert PatchPdfAt(b, m, base) == b;
      }
    }
  }

  /** When the trailer step succeeds, the new startxref text sits ten bytes after the 's' of
      "startxref" and the end-of-file marker follows it: the second write leaves the first
      one in place. */
  lemma {:induction false} PatchTrailerWritten(buf: seq<u8>, m: Markers, base: int)
    requires PatchTrailer(buf, m, base).Ok?
    ensures TrailerWritten(m.startXrefStart + 10, NewStartXref(buf, m, base), PatchTrailer(buf, m, base).value)
  {
    WriteTrailerWritten(buf, m.startXrefStart + 10, NewStartXref(buf, m, base));
  }

  /** Both trailer writes, once they succeed, leave the text at `at` and the end-of-file
      marker after it. */
  lemma {:induction false} WriteTrailerWritten(buf: seq<u8>, at: nat, t: seq<u8>)
    requires WriteTrailer(buf, at, t).Ok?
    ensures TrailerWritten(at, t, WriteTrailer(buf, at, t).value)
  {
    var buf1 := Stored(buf, at, t);
    var buf2 := Stored(buf1, at + |t|, EofMarker);
    assert WriteTrailer(buf, at, t).value == buf2;
    forall k | 0 <= k < |t| ensures buf2[at..at + |t|][k] == t[k] {
      assert buf2[at + k] == buf1[at + k];
      assert buf1[at..at + |t|][k] == buf1[at + k];
    }
  }
}
