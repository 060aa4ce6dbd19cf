/** `fixZipOffsets`: relocates a ZIP archive that will be stored after `base` other bytes.
    It finds the end of central directory record (section 4.3.16 of PKWARE's APPNOTE.TXT),
    adds `base` to the central directory offset it holds, and walks the central directory
    file headers (section 4.3.12), adding `base` to the local header offset of each. */
module ZipPatch {
  import opened Bytes

  /** "PK\x05\x06", the signature of the end of central directory record. */
  const EocdSignature: nat := 0x06054b50

  /** "PK\x01\x02", the signature of a central directory file header. */
  const CentralSignature: nat := 0x02014b50

  /** The fixed part of the end of central directory record. */
  const EocdSize: nat := 22

  /** The fixed part of a central directory file header. */
  const HeaderSize: nat := 46

  /** How far back from the end the record is searched for: the fixed part plus the longest
      archive comment. */
  function ScanLength(len: nat): (r: nat)
  {
    Min(len, 65535 + EocdSize)
  }

  /** The lowest offset the backward search tries. */
  function ScanStart(len: nat): (r: nat)
  {
    len - ScanLength(len)
  }

  /** The backward search from `i` down to `lo` for the record's signature; -1 when no offset
      in that range holds it. */
  function FindEocdFrom(b: seq<u8>, i: int, lo: nat): (r: int)
    requires i + 4 <= |b|
    ensures r == -1 || (lo <= r <= i && U32At(b, r) == EocdSignature)
    decreases i + 1 - lo
  {
    if i < lo then -1
    else if U32At(b, i) == EocdSignature then i
    else FindEocdFrom(b, i - 1, lo)
  }

  /** Where `fixZipOffsets` finds the end of central directory record, or -1. */
  function FindEocd(b: seq<u8>): (r: int)
  {
    FindEocdFrom(b, |b| - EocdSize, ScanStart(|b|))
  }

  /** `b` after `view.setUint32(p, v, true)`. */
  function SetU32(b: seq<u8>, p: nat, v: int): (r: seq<u8>)
    requires p + 4 <= |b|
    ensures |r| == |b|
  {
    Stored(b, p, U32Bytes(v))
  }

  /** The archive once the central directory offset in the record at `e` has been moved
      by `base`. */
  function EocdPatched(b: seq<u8>, e: nat, base: int): (r: seq<u8>)
    requires e + EocdSize <= |b|
    ensures |r| == |b|
  {
    SetU32(b, e + 16, U32At(b, e + 16) + base)
  }

  /** The offset of the header after the one at `pos`: the fixed part, then the file name,
      the extra field and the file comment. */
  function NextEntry(b: seq<u8>, pos: nat): (r: nat)
    requires pos + HeaderSize <= |b|
  {
    pos + HeaderSize + U16At(b, pos + 28) + U16At(b, pos + 30) + U16At(b, pos + 32)
  }

  /** A central directory file header starts at `pos`. */
  predicate HeaderAt(b: seq<u8>, pos: nat)
  {
    pos + 4 <= |b| && U32At(b, pos) == CentralSignature
  }

  /** The walk over at most `remaining` headers from `pos`, each step reading the buffer as
      the previous steps left it; a header whose fixed part runs past the end makes
      `getUint32` throw. */
  function WalkEntries(buf: seq<u8>, pos: nat, remaining: nat, base: int): (r: Result<seq<u8>>)
    ensures r.Ok? ==> |r.value| == |buf|
    decreases remaining, 1
  {
    if remaining == 0 || !HeaderAt(buf, pos) then Ok(buf)
    else if pos + HeaderSize > |buf| then RangeError
    else WalkPast(buf, pos, remaining, base)
  }

  /** The walk once the header at `pos` is known to fit: its local header offset moved,
      then on to the next header. */
  function WalkPast(buf: seq<u8>, pos: nat, remaining: nat, base: int): (r: Result<seq<u8>>)
    requires remaining > 0 && pos + HeaderSize <= |buf|
    ensures r.Ok? ==> |r.value| == |buf|
    decreases remaining, 0
  {
    var next := SetU32(buf, pos + 42, U32At(buf, pos + 42) + base);
    WalkEntries(next, NextEntry(next, pos), remaining - 1, base)
  }

  /** What `fixZipOffsets(b, base)` resolves to: the archive unchanged when it has no end of
      central directory record, otherwise the record and the headers patched, or a
      RangeError. */
  function PatchZip(b: seq<u8>, base: int): (r: Result<seq<u8>>)
    ensures r.Ok? ==> |r.value| == |b|
  {
    var e := FindEocd(b);
    if e < 0 then Ok(b)
    else
      var patched := EocdPatched(b, e, base);
      WalkEntries(patched, U32At(b, e + 16), U16At(patched, e + 10), base)
  }

  /** `fixZipOffsets`: copies the archive into a buffer, searches backwards for the end of
      central directory record, moves the central directory offset, and walks the headers
      from the unmoved offset. */
  method FixZipOffsets(zip: seq<u8>, offsetToAdd: nat) returns (result: Result<seq<u8>>)
    ensures result == PatchZip(zip, offsetToAdd)
  {
    var buffer := CopyOf(zip);
    var eocdPos := FindEocdInPlace(buffer);
    assert buffer[..] == zip;
    if eocdPos == -1 {
      return Ok(zip);
    }
    var cdOffset := U32At(buffer[..], eocdPos + 16);
    SetUint32(buffer, eocdPos + 16, cdOffset + offsetToAdd);
    ghost var patched := buffer[..];
    assert patched == EocdPatched(zip, eocdPos, offsetToAdd);
    var cdCount := U16At(buffer[..], eocdPos + 10);
    PatchZipFound(zip, offsetToAdd, eocdPos, patched);
    var ok := WalkInPlace(buffer, cdOffset, cdCount, offsetToAdd);
    if !ok {
      // a `getUint32` threw; `fixZipOffsets` does not catch it
      return RangeError;
    }
    return Ok(buffer[..]);
  }

  /** Once the record is found at `e` and moved, the rest of `fixZipOffsets` is the walk
      from the unmoved central directory offset. */
  lemma PatchZipFound(zip: seq<u8>, base: int, e: nat, patched: seq<u8>)
    requires FindEocd(zip) == e && e + EocdSize <= |zip| && patched == EocdPatched(zip, e, base)
    ensures PatchZip(zip, base) == WalkEntries(patched, U32At(zip, e + 16), U16At(patched, e + 10), base)
  {
  }

  /** `new Uint8Array(zip)`: a fresh buffer holding a copy of the bytes. */
  method CopyOf(zip: seq<u8>) returns (buffer: array<u8>)
    ensures fresh(buffer) && buffer[..] == zip
  {
    buffer := new u8[|zip|](i requires 0 <= i < |zip| => zip[i]);
  }

  /** `view.setUint32(p, v, true)` on the buffer. */
  method SetUint32(buffer: array<u8>, p: nat, v: int)
    requires p + 4 <= buffer.Length
    modifies buffer
    ensures buffer[..] == SetU32(old(buffer[..]), p, v)
  {
    SetBytes(buffer, p, U32Bytes(v));
  }

  /** The backward loop looking for the end of central directory record. */
  method FindEocdInPlace(buffer: array<u8>) returns (eocdPos: int)
    ensures eocdPos == FindEocd(buffer[..])
  {
    var scanLen := Min(buffer.Length, 65535 + 22);
    var i := buffer.Length - 22;
    while i >= buffer.Length - scanLen
      invariant i <= buffer.Length - EocdSize
      invariant FindEocdFrom(buffer[..], i, ScanStart(buffer.Length)) == FindEocd(buffer[..])
      decreases i
    {
      if U32At(buffer[..], i) == EocdSignature {
        return i;
      }
      i := i - 1;
    }
    return -1;
  }

  /** The loop over the central directory file headers; false when a read ran past the end
      and threw. */
  method WalkInPlace(buffer: array<u8>, cdOffset: nat, cdCount: nat, base: int) returns (ok: bool)
    modifies buffer
    ensures ok == WalkEntries(old(buffer[..]), cdOffset, cdCount, base).Ok?
    ensures ok ==> buffer[..] == WalkEntries(old(buffer[..]), cdOffset, cdCount, base).value
  {
    ghost var walked := WalkEntries(buffer[..], cdOffset, cdCount, base);
    var currentPos: nat := cdOffset;
    for i := 0 to cdCount
      invariant WalkEntries(buffer[..], currentPos, cdCount - i, base) == walked
    {
      if currentPos + 4 > buffer.Length || U32At(buffer[..], currentPos) != CentralSignature {
        break;
      }
      if currentPos + 46 > buffer.Length {
        return false;
      }
      ghost var before := buffer[..];
      var next := PatchHeader(buffer, currentPos, base);
      WalkStep(before, currentPos, cdCount - i, base, buffer[..], next);
      currentPos := next;
    }
    return true;
  }

  /** The body of the header loop for the header at `currentPos`: moves its local header
      offset and returns the offset of the next header. */
  method PatchHeader(buffer: array<u8>, currentPos: nat, base: int) returns (next: nat)
    requires currentPos + HeaderSize <= buffer.Length
    modifies buffer
    ensures buffer[..] == SetU32(old(buffer[..]), currentPos + 42, U32At(old(buffer[..]), currentPos + 42) + base)
    ensures next == NextEntry(buffer[..], currentPos)
  {
    var localHeaderOffset := U32At(buffer[..], currentPos + 42);
    SetUint32(buffer, currentPos + 42, localHeaderOffset + base);
    var fileNameLen := U16At(buffer[..], currentPos + 28);
    var extraFieldLen := U16At(buffer[..], currentPos + 30);
    var commentLen := U16At(buffer[..], currentPos + 32);
    next := currentPos + 46 + fileNameLen + extraFieldLen + commentLen;
  }

  /** One step of the walk over a header whose fixed part is inside the buffer: it leaves
      `next` and goes on at `q`. */
  lemma {:induction false} WalkStep(buf: seq<u8>, pos: nat, remaining: nat, base: int, next: seq<u8>, q: nat)
    requires remaining > 0 && HeaderAt(buf, pos) && pos + HeaderSize <= |buf|
    requires next == SetU32(buf, pos + 42, U32At(buf, pos + 42) + base) && q == NextEntry(next, pos)
    ensures WalkEntries(buf, pos, remaining, base) == WalkEntries(next, q, remaining - 1, base)
  {
  }

  // ---------------------------------------------------------------------------------------
  // The backward search

  /** The record's signature sits at `i`, inside the tail window the search covers. */
  predicate EocdCandidate(b: seq<u8>, i: int)
  {
    ScanStart(|b|) <= i && i + EocdSize <= |b| && U32At(b, i) == EocdSignature
  }

  lemma {:induction false} FindEocdFromSpec(b: seq<u8>, i: int, lo: nat)
    requires i + 4 <= |b|
    ensures var r := FindEocdFrom(b, i, lo);
      && (r == -1 <==> forall j :: lo <= j <= i ==> U32At(b, j) != EocdSignature)
      && (r != -1 ==> forall j :: r < j <= i ==> U32At(b, j) != EocdSignature)
    decreases i + 1 - lo
  {
    if i >= lo && U32At(b, i) != EocdSignature {
      FindEocdFromSpec(b, i - 1, lo);
    }
  }

  /** The search finds the highest offset of the tail window that holds the signature, and
      -1 exactly when no offset there does. */
  lemma {:induction false} FindEocdSpec(b: seq<u8>)
    ensures FindEocd(b) == -1 <==> forall i :: !EocdCandidate(b, i)
    ensures FindEocd(b) != -1 ==> EocdCandidate(b, FindEocd(b))
    ensures forall i :: EocdCandidate(b, i) ==> i <= FindEocd(b)
  {
    var lo, hi := ScanStart(|b|), |b| - EocdSize;
    var r := FindEocdFrom(b, hi, lo);
    FindEocdFromSpec(b, hi, lo);
    assert forall i :: EocdCandidate(b, i) <==> lo <= i <= hi && U32At(b, i) == EocdSignature;
  }

  /** An archive with no end of central directory record in the tail window comes back as
      it was. */
  lemma {:induction false} ZipWithoutEocdUnchanged(b: seq<u8>, base: int)
    requires forall i :: !EocdCandidate(b, i)
    ensures PatchZip(b, base) == Ok(b)
  {
    FindEocdSpec(b);
  }

  // ---------------------------------------------------------------------------------------
  // The record

  /** Moving the record's central directory offset stores `(old + base) mod 2^32` at
      `e + 16` and keeps every other byte. */
  lemma {:induction false} EocdPatchedLayout(b: seq<u8>, e: nat, base: int)
    requires e + EocdSize <= |b|
    ensures var r := EocdPatched(b, e, base);
      && |r| == |b|
      && U32At(r, e + 16) == (U32At(b, e + 16) + base) % Two32
      && forall k :: 0 <= k < |b| && !(e + 16 <= k < e + 20) ==> r[k] == b[k]
  {
    var v := U32At(b, e + 16) + base;
    var r := EocdPatched(b, e, base);
    U32AtOf(r, e + 16, U32Bytes(v));
    U32BytesValue(v);
  }

  // ---------------------------------------------------------------------------------------
  // The walk as a list of writes

  /** Every header of `cs` has its fixed part inside a buffer of length `len`. */
  predicate HeadersFit(len: nat, cs: seq<nat>)
  {
    forall i :: 0 <= i < |cs| ==> cs[i] + HeaderSize <= len
  }

  /** The offsets of the headers the walk visits in `buf` from `pos`, or a RangeError when
      a header whose signature matches has its fixed part past the end. */
  function HeaderPositions(buf: seq<u8>, pos: nat, remaining: nat): (r: Result<seq<nat>>)
    ensures r.Ok? ==> HeadersFit(|buf|, r.value)
    decreases remaining
  {
    if remaining == 0 || !HeaderAt(buf, pos) then Ok([])
    else if pos + HeaderSize > |buf| then RangeError
    else
      match HeaderPositions(buf, NextEntry(buf, pos), remaining - 1)
      case RangeError => RangeError
      case Ok(rest) => Ok([pos] + rest)
  }

  /** The local header offset of each header of `cs` moved by `base`, as writes. */
  function OffsetWrites(buf: seq<u8>, cs: seq<nat>, base: int): (ps: seq<Patch>)
    requires HeadersFit(|buf|, cs)
    ensures |ps| == |cs|
  {
    if cs == [] then []
    else
      [Patch(cs[0] + 42, U32Bytes(U32At(buf, cs[0] + 42) + base))] + OffsetWrites(buf, cs[1..], base)
  }

  /** A header whose fixed part fits, in front of headers that fit, gives headers that fit. */
  lemma HeadersFitCons(len: nat, c: nat, rest: seq<nat>)
    requires c + HeaderSize <= len && HeadersFit(len, rest)
    ensures HeadersFit(len, [c] + rest)
  {
    var cs := [c] + rest;
    forall i | 0 <= i < |cs| ensures cs[i] + HeaderSize <= len {
      if i > 0 {
        assert cs[i] == rest[i - 1];
      }
    }
  }

  /** The writes for `[c] + rest` are the write into the header at `c`, then those for
      `rest`. */
  lemma {:induction false} OffsetWritesCons(buf: seq<u8>, c: nat, rest: seq<nat>, base: int)
    requires c + HeaderSize <= |buf| && HeadersFit(|buf|, rest)
    ensures HeadersFit(|buf|, [c] + rest)
    ensures OffsetWrites(buf, [c] + rest, base)
      == [Patch(c + 42, U32Bytes(U32At(buf, c + 42) + base))] + OffsetWrites(buf, rest, base)
  {
    HeadersFitCons(|buf|, c, rest);
    assert ([c] + rest)[1..] == rest;
  }

  /** `a` and `b` have the same length and the same bytes from `from` on. */
  predicate AgreeFrom(a: seq<u8>, b: seq<u8>, from: nat)
  {
    |a| == |b| && forall k :: from <= k < |a| ==> a[k] == b[k]
  }

  /** Each header of `cs` starts at least a fixed part after the one before. */
  predicate Spaced(cs: seq<nat>)
  {
    forall i :: 0 <= i < |cs| - 1 ==> cs[i] + HeaderSize <= cs[i + 1]
  }

  /** Where the walk looks after the headers `cs` it visited from `pos`: `pos` itself when it
      visited none, otherwise the header after the last one. */
  function StopAt(buf: seq<u8>, pos: nat, cs: seq<nat>): (r: nat)
    requires HeadersFit(|buf|, cs)
    ensures cs != [] ==> r >= cs[|cs| - 1] + HeaderSize
  {
    if cs == [] then pos else NextEntry(buf, cs[|cs| - 1])
  }

  /** `cs` starts at `pos` and each header of it is followed by the next one: the fixed part,
      the file name, the extra field and the file comment further on. */
  predicate Chained(buf: seq<u8>, pos: nat, cs: seq<nat>)
  {
    && HeadersFit(|buf|, cs)
    && (cs != [] ==> cs[0] == pos)
    && (forall i :: 0 <= i < |cs| - 1 ==> cs[i + 1] == NextEntry(buf, cs[i]))
  }

  /** The headers the walk visits start at `pos`, each holds the signature and is followed by
      the next, at least a fixed part further on; there are at most `remaining` of them, and
      fewer only when the walk stopped at a position whose signature is missing or does not
      fit. */
  lemma {:induction false} HeaderPositionsShape(buf: seq<u8>, pos: nat, remaining: nat)
    requires HeaderPositions(buf, pos, remaining).Ok?
    ensures var cs := HeaderPositions(buf, pos, remaining).value;
      && |cs| <= remaining
      && (forall i :: 0 <= i < |cs| ==> pos <= cs[i] && HeaderAt(buf, cs[i]))
      && Spaced(cs)
      && Chained(buf, pos, cs)
      && (|cs| < remaining ==> !HeaderAt(buf, StopAt(buf, pos, cs)))
    decreases remaining
  {
    if remaining > 0 && HeaderAt(buf, pos) {
      var q := NextEntry(buf, pos);
      HeaderPositionsShape(buf, q, remaining - 1);
      var rest := HeaderPositions(buf, q, remaining - 1).value;
      assert HeaderPositions(buf, pos, remaining).value == [pos] + rest;
      ChainedCons(buf, pos, rest);
    }
  }

  /** A header in front of the walk from the next one: the facts of the walk from `pos`. */
  lemma {:induction false} ChainedCons(buf: seq<u8>, pos: nat, rest: seq<nat>)
    requires HeaderAt(buf, pos) && pos + HeaderSize <= |buf|
    requires var q := NextEntry(buf, pos);
      && (forall i :: 0 <= i < |rest| ==> q <= rest[i] && HeaderAt(buf, rest[i]))
      && Spaced(rest)
      && Chained(buf, q, rest)
    ensures var cs := [pos] + rest;
      && (forall i :: 0 <= i < |cs| ==> pos <= cs[i] && HeaderAt(buf, cs[i]))
      && Spaced(cs)
      && Chained(buf, pos, cs)
      && StopAt(buf, pos, cs) == StopAt(buf, NextEntry(buf, pos), rest)
  {
    var cs := [pos] + rest;
    assert forall i :: 1 <= i < |cs| ==> cs[i] == rest[i - 1];
  }

  /** A central directory of `n` headers from `pos`: each holds the signature, has its fixed
      part inside the buffer, and is followed by the next. */
  predicate Directory(buf: seq<u8>, pos: nat, n: nat)
    decreases n
  {
    n == 0 ||
    (HeaderAt(buf, pos) && pos + HeaderSize <= |buf| && Directory(buf, NextEntry(buf, pos), n - 1))
  }

  /** The walk visits `n` headers and resolves exactly when the `n` headers from `pos` form a
      directory. */
  lemma {:induction false} WalkVisitsDirectory(buf: seq<u8>, pos: nat, n: nat)
    ensures Directory(buf, pos, n)
      <==> HeaderPositions(buf, pos, n).Ok? && |HeaderPositions(buf, pos, n).value| == n
    decreases n
  {
    if n > 0 && HeaderAt(buf, pos) && pos + HeaderSize <= |buf| {
      WalkVisitsDirectory(buf, NextEntry(buf, pos), n - 1);
    }
  }

  /** What the walk sees does not depend on the bytes before its start. */
  lemma {:induction false} HeaderPositionsAgree(a: seq<u8>, b: seq<u8>, pos: nat, remaining: nat)
    requires AgreeFrom(a, b, pos)
    ensures HeaderPositions(a, pos, remaining) == HeaderPositions(b, pos, remaining)
    decreases remaining
  {
    if remaining > 0 && pos + HeaderSize <= |a| {
      assert U32At(a, pos) == U32At(b, pos);
      assert NextEntry(a, pos) == NextEntry(b, pos);
      HeaderPositionsAgree(a, b, NextEntry(a, pos), remaining - 1);
    } else if remaining > 0 && pos + 4 <= |a| {
      assert U32At(a, pos) == U32At(b, pos);
    }
  }

  /** The writes for headers at or after `from` do not depend on the bytes before it. */
  lemma {:induction false} OffsetWritesAgree(a: seq<u8>, b: seq<u8>, from: nat, cs: seq<nat>, base: int)
    requires AgreeFrom(a, b, from) && HeadersFit(|a|, cs)
    requires forall i :: 0 <= i < |cs| ==> from <= cs[i]
    ensures OffsetWrites(a, cs, base) == OffsetWrites(b, cs, base)
  {
    if cs != [] {
      var p, rest := cs[0] + 42, cs[1..];
      assert a[p] == b[p] && a[p + 1] == b[p + 1] && a[p + 2] == b[p + 2] && a[p + 3] == b[p + 3];
      forall i | 0 <= i < |rest| ensures rest[i] + HeaderSize <= |a| && from <= rest[i] {
        assert rest[i] == cs[i + 1];
      }
      OffsetWritesAgree(a, b, from, rest, base);
      assert cs == [cs[0]] + rest;
      OffsetWritesCons(a, cs[0], rest, base);
      OffsetWritesCons(b, cs[0], rest, base);
    }
  }

  /** Moving the local header offset of the header at `pos` changes nothing from the next
      header on, nor the lengths that lead to it. */
  lemma {:induction false} HeaderWriteBehind(buf: seq<u8>, pos: nat, v: int)
    requires pos + HeaderSize <= |buf|
    ensures var next := SetU32(buf, pos + 42, v);
      && NextEntry(next, pos) == NextEntry(buf, pos)
      && AgreeFrom(next, buf, NextEntry(buf, pos))
  {
    var next := SetU32(buf, pos + 42, v);
    assert forall k :: pos + 28 <= k < pos + 34 ==> next[k] == buf[k];
  }

  /** The writes for `[pos] + rest` carried out are the write into the header at `pos`,
      then the writes for `rest`. */
  lemma {:induction false} OffsetWritesFirst(buf: seq<u8>, pos: nat, rest: seq<nat>, base: int)
    requires pos + HeaderSize <= |buf| && HeadersFit(|buf|, rest)
    ensures HeadersFit(|buf|, [pos] + rest)
    ensures ApplyPatches(buf, OffsetWrites(buf, [pos] + rest, base))
      == ApplyPatches(SetU32(buf, pos + 42, U32At(buf, pos + 42) + base), OffsetWrites(buf, rest, base))
  {
    OffsetWritesCons(buf, pos, rest, base);
    var v := U32At(buf, pos + 42) + base;
    ApplyPatchesCons(buf, Patch(pos + 42, U32Bytes(v)), OffsetWrites(buf, rest, base));
  }

  /** After the write into the header at `pos`, the rest of the walk sees the headers it
      would have seen before the write, and their writes complete the writes from `pos`. */
  lemma {:induction false} WalkTail(buf: seq<u8>, pos: nat, remaining: nat, base: int)
    requires remaining > 0 && pos + HeaderSize <= |buf|
    ensures var next := SetU32(buf, pos + 42, U32At(buf, pos + 42) + base);
      var q := NextEntry(buf, pos);
      var rest := HeaderPositions(buf, q, remaining - 1);
      && NextEntry(next, pos) == q
      && HeaderPositions(next, q, remaining - 1) == rest
      && (rest.Ok? ==>
            && HeadersFit(|buf|, [pos] + rest.value)
            && ApplyPatches(next, OffsetWrites(next, rest.value, base))
               == ApplyPatches(buf, OffsetWrites(buf, [pos] + rest.value, base)))
  {
    var next := SetU32(buf, pos + 42, U32At(buf, pos + 42) + base);
    var q := NextEntry(buf, pos);
    HeaderWriteBehind(buf, pos, U32At(buf, pos + 42) + base);
    HeaderPositionsAgree(next, buf, q, remaining - 1);
    var rest := HeaderPositions(buf, q, remaining - 1);
    if rest.Ok? {
      HeaderPositionsShape(buf, q, remaining - 1);
      OffsetWritesAgree(next, buf, q, rest.value, base);
      OffsetWritesFirst(buf, pos, rest.value, base);
    }
  }

  /** The walk reads every header before writing into it and writes only behind the next
      one, so it carries out the offset writes of the headers it visits in the buffer it
      starts from; it throws exactly when that list of headers ends in one that is cut off. */
  lemma {:induction false} WalkAsPatches(buf: seq<u8>, pos: nat, remaining: nat, base: int)
    ensures HeaderPositions(buf, pos, remaining).RangeError? ==> WalkEntries(buf, pos, remaining, base) == RangeError
    ensures HeaderPositions(buf, pos, remaining).Ok? ==>
      WalkEntries(buf, pos, remaining, base)
        == Ok(ApplyPatches(buf, OffsetWrites(buf, HeaderPositions(buf, pos, remaining).value, base)))
    decreases remaining
  {
    if remaining > 0 && HeaderAt(buf, pos) && pos + HeaderSize <= |buf| {
      var next := SetU32(buf, pos + 42, U32At(buf, pos + 42) + base);
      var q := NextEntry(buf, pos);
      WalkTail(buf, pos, remaining, base);
      WalkStep(buf, pos, remaining, base, next, q);
      WalkAsPatches(next, q, remaining - 1, base);
    }
  }

  /** What `fixZipOffsets` resolves to once it has found the record: the record moved and
      the offset writes of the headers visited from the unmoved central directory offset, or
      a RangeError when the walk reaches a header that is cut off. */
  lemma {:induction false} PatchZipAsPatches(b: seq<u8>, base: int)
    requires FindEocd(b) >= 0
    ensures var e := FindEocd(b);
      var patched := EocdPatched(b, e, base);
      var hs := HeaderPositions(patched, U32At(b, e + 16), U16At(patched, e + 10));
      && (hs.RangeError? ==> PatchZip(b, base) == RangeError)
      && (hs.Ok? ==> PatchZip(b, base) == Ok(ApplyPatches(patched, OffsetWrites(patched, hs.value, base))))
  {
    var e := FindEocd(b);
    var patched := EocdPatched(b, e, base);
    WalkAsPatches(patched, U32At(b, e + 16), U16At(patched, e + 10), base);
  }

  /** Offset `k` lies in the local header offset field of one of the headers `cs`. */
  predicate InOffsetField(cs: seq<nat>, k: int)
  {
    exists i :: 0 <= i < |cs| && cs[i] + 42 <= k < cs[i] + 46
  }

  /** `r` is `buf` with the local header offset of each header of `cs` moved by `base`
      modulo 2^32 and every other byte kept. */
  predicate OffsetsMoved(buf: seq<u8>, cs: seq<nat>, base: int, r: seq<u8>)
  {
    && |r| == |buf|
    && HeadersFit(|buf|, cs)
    && (forall i :: 0 <= i < |cs| ==> U32At(r, cs[i] + 42) == (U32At(buf, cs[i] + 42) + base) % Two32)
    && (forall k :: 0 <= k < |buf| && !InOffsetField(cs, k) ==> r[k] == buf[k])
  }

  /** Write `i` of the offset writes is the one for header `i`. */
  lemma {:induction false} OffsetWritesAt(buf: seq<u8>, cs: seq<nat>, base: int, i: nat)
    requires HeadersFit(|buf|, cs) && i < |cs|
    ensures OffsetWrites(buf, cs, base)[i] == Patch(cs[i] + 42, U32Bytes(U32At(buf, cs[i] + 42) + base))
  {
    assert cs == [cs[0]] + cs[1..];
    OffsetWritesCons(buf, cs[0], cs[1..], base);
    if i > 0 {
      OffsetWritesAt(buf, cs[1..], base, i - 1);
    }
  }

  /** The offset writes of spaced headers are ascending and inside the buffer. */
  lemma {:induction false} OffsetWritesShape(buf: seq<u8>, cs: seq<nat>, base: int)
    requires HeadersFit(|buf|, cs) && Spaced(cs)
    ensures var ws := OffsetWrites(buf, cs, base);
      Fits(|buf|, ws) && Ascending(ws)
  {
    var ws := OffsetWrites(buf, cs, base);
    forall i | 0 <= i < |ws| ensures ws[i].at + |ws[i].data| <= |buf| {
      OffsetWritesAt(buf, cs, base, i);
    }
    forall i | 0 <= i < |ws| - 1 ensures ws[i].at + |ws[i].data| <= ws[i + 1].at {
      OffsetWritesAt(buf, cs, base, i);
      OffsetWritesAt(buf, cs, base, i + 1);
    }
  }

  /** After the offset writes of spaced headers, the field of header `i` holds its old
      value plus `base` modulo 2^32. */
  lemma {:induction false} OffsetWrittenAt(buf: seq<u8>, cs: seq<nat>, base: int, i: nat)
    requires HeadersFit(|buf|, cs) && Spaced(cs) && i < |cs|
    ensures U32At(ApplyPatches(buf, OffsetWrites(buf, cs, base)), cs[i] + 42)
      == (U32At(buf, cs[i] + 42) + base) % Two32
  {
    var ws := OffsetWrites(buf, cs, base);
    var r := ApplyPatches(buf, ws);
    var p, v := cs[i] + 42, U32At(buf, cs[i] + 42) + base;
    OffsetWritesShape(buf, cs, base);
    OffsetWritesAt(buf, cs, base, i);
    ApplyPatchesWritten(buf, ws, i);
    U32AtOf(r, p, U32Bytes(v));
    U32BytesValue(v);
  }

  /** After the offset writes, a byte outside every local header offset field is the old
      one. */
  lemma {:induction false} OffsetWritesKeep(buf: seq<u8>, cs: seq<nat>, base: int, k: nat)
    requires HeadersFit(|buf|, cs) && k < |buf| && !InOffsetField(cs, k)
    ensures ApplyPatches(buf, OffsetWrites(buf, cs, base))[k] == buf[k]
  {
    var ws := OffsetWrites(buf, cs, base);
    forall i | 0 <= i < |ws| ensures !(ws[i].at <= k < ws[i].at + |ws[i].data|) {
      OffsetWritesAt(buf, cs, base, i);
    }
    ApplyPatchesUntouched(buf, ws, k);
  }

  /** Carrying out the offset writes of spaced headers moves each local header offset by
      `base` and keeps every other byte. */
  lemma {:induction false} OffsetWritesLayout(buf: seq<u8>, cs: seq<nat>, base: int)
    requires HeadersFit(|buf|, cs) && Spaced(cs)
    ensures OffsetsMoved(buf, cs, base, ApplyPatches(buf, OffsetWrites(buf, cs, base)))
  {
    var r := ApplyPatches(buf, OffsetWrites(buf, cs, base));
    forall i | 0 <= i < |cs| ensures U32At(r, cs[i] + 42) == (U32At(buf, cs[i] + 42) + base) % Two32 {
      OffsetWrittenAt(buf, cs, base, i);
    }
    forall k | 0 <= k < |buf| && !InOffsetField(cs, k) ensures r[k] == buf[k] {
      OffsetWritesKeep(buf, cs, base, k);
    }
  }

  /** When `fixZipOffsets` resolves, the result is the archive with its record moved (see
      `EocdPatchedLayout`) and then the local header offset of every header the walk visits
      moved by `base` modulo 2^32; each visited header holds the signature, and nothing else
      changes. */
  lemma {:induction false} ZipPatchedLayout(b: seq<u8>, base: int)
    requires FindEocd(b) >= 0 && PatchZip(b, base).Ok?
    ensures var e := FindEocd(b);
      var patched := EocdPatched(b, e, base);
      var hs := HeaderPositions(patched, U32At(b, e + 16), U16At(patched, e + 10));
      && hs.Ok?
      && (forall i :: 0 <= i < |hs.value| ==> HeaderAt(patched, hs.value[i]))
      && OffsetsMoved(patched, hs.value, base, PatchZip(b, base).value)
  {
    var e := FindEocd(b);
    var patched := EocdPatched(b, e, base);
    var start, count := U32At(b, e + 16), U16At(patched, e + 10);
    PatchZipAsPatches(b, base);
    HeaderPositionsShape(patched, start, count);
    OffsetWritesLayout(patched, HeaderPositions(patched, start, count).value, base);
  }

  /** No local header offset field of the headers `cs` overlaps the four bytes at `p`. */
  predicate FieldApart(cs: seq<nat>, p: nat)
  {
    forall k :: p <= k < p + 4 ==> !InOffsetField(cs, k)
  }

  /** After the offset writes, a four-byte field outside every local header offset field
      reads as before. */
  lemma {:induction false} OffsetWritesKeepField(buf: seq<u8>, cs: seq<nat>, base: int, p: nat)
    requires HeadersFit(|buf|, cs) && p + 4 <= |buf|
    requires FieldApart(cs, p)
    ensures U32At(ApplyPatches(buf, OffsetWrites(buf, cs, base)), p) == U32At(buf, p)
  {
    OffsetWritesKeep(buf, cs, base, p);
    OffsetWritesKeep(buf, cs, base, p + 1);
    OffsetWritesKeep(buf, cs, base, p + 2);
    OffsetWritesKeep(buf, cs, base, p + 3);
  }

  /** The record's central directory offset survives the walk: when no visited local header
      offset field overlaps it, the resolved archive holds `(old + base) mod 2^32` there. */
  lemma {:induction false} ZipRecordMoved(b: seq<u8>, base: int)
    requires FindEocd(b) >= 0 && PatchZip(b, base).Ok?
    ensures var e := FindEocd(b);
      var patched := EocdPatched(b, e, base);
      var hs := HeaderPositions(patched, U32At(b, e + 16), U16At(patched, e + 10));
      hs.Ok? && FieldApart(hs.value, e + 16) ==>
        U32At(PatchZip(b, base).value, e + 16) == (U32At(b, e + 16) + base) % Two32
  {
    var e := FindEocd(b);
    var patched := EocdPatched(b, e, base);
    var hs := HeaderPositions(patched, U32At(b, e + 16), U16At(patched, e + 10));
    PatchZipAsPatches(b, base);
    if hs.Ok? && FieldApart(hs.value, e + 16) {
      RecordKept(b, e, base, hs.value);
    }
  }

  /** The offset writes of headers apart from the record's central directory offset leave
      the moved offset in place. */
  lemma {:induction false} RecordKept(b: seq<u8>, e: nat, base: int, cs: seq<nat>)
    requires e + EocdSize <= |b| && HeadersFit(|b|, cs) && FieldApart(cs, e + 16)
    ensures var patched := EocdPatched(b, e, base);
      U32At(ApplyPatches(patched, OffsetWrites(patched, cs, base)), e + 16) == (U32At(b, e + 16) + base) % Two32
  {
    var patched := EocdPatched(b, e, base);
    OffsetWritesKeepField(patched, cs, base, e + 16);
    EocdPatchedLayout(b, e, base);
  }

  /** Completeness of the walk: when the `cdCount` headers from the central directory offset
      form a directory (in the archive as the walk reads it, after the record was moved), the
      patch resolves, and the walk visits all of them, the first at that offset and each next
      one where the previous one ends, moving the local header offset of every one of them. */
  lemma {:induction false} ZipDirectoryMoved(b: seq<u8>, base: int)
    requires FindEocd(b) >= 0
    requires var e := FindEocd(b);
      var patched := EocdPatched(b, e, base);
      Directory(patched, U32At(b, e + 16), U16At(patched, e + 10))
    ensures PatchZip(b, base).Ok?
    ensures var e := FindEocd(b);
      var patched := EocdPatched(b, e, base);
      var start, count := U32At(b, e + 16), U16At(patched, e + 10);
      var hs := HeaderPositions(patched, start, count);
      && hs.Ok?
      && |hs.value| == count
      && Chained(patched, start, hs.value)
      && OffsetsMoved(patched, hs.value, base, PatchZip(b, base).value)
  {
    var e := FindEocd(b);
    var patched := EocdPatched(b, e, base);
    var start, count := U32At(b, e + 16), U16At(patched, e + 10);
    WalkVisitsDirectory(patched, start, count);
    HeaderPositionsShape(patched, start, count);
    PatchZipAsPatches(b, base);
    ZipPatchedLayout(b, base);
  }
}
