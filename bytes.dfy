/** Byte buffers as the patchers see them: a Uint8Array (or the ArrayBuffer behind a
    DataView) of fixed length, the typed-array primitives the patchers call, and the
    little-endian integer fields of the ZIP format. */
module Bytes {

  /** One element of a Uint8Array. */
  type u8 = x: int | 0 <= x < 256

  datatype Option<+T> = None | Some(value: T)

  /** The outcome of a step that may throw a JavaScript RangeError, the only exception
      the typed-array calls of the patchers can raise. */
  datatype Result<+T> = Ok(value: T) | RangeError

  /** The line-feed byte 0x0A. */
  const LF: u8 := 0x0A

  function Min(a: int, b: int): (r: int) { if a <= b then a else b }

  function Max(a: int, b: int): (r: int) { if a <= b then b else a }

  /** `buf.slice(from, to)`: both bounds are clamped to the buffer, so it never throws. */
  function Slice(buf: seq<u8>, from: nat, to: nat): (r: seq<u8>)
    ensures |r| == Max(0, Min(to, |buf|) - Min(from, |buf|))
  {
    var lo := Min(from, |buf|);
    var hi := Min(to, |buf|);
    if lo < hi then buf[lo..hi] else []
  }

  /** The buffer after `buf.set(src, at)` succeeded: `src` now sits at `at`, every other
      byte is as before and the length is unchanged. */
  function Stored(buf: seq<u8>, at: nat, src: seq<u8>): (r: seq<u8>)
    requires at + |src| <= |buf|
    ensures |r| == |buf|
    ensures r[at..at + |src|] == src
    ensures forall k {:trigger r[k]} :: 0 <= k < |buf| && !(at <= k < at + |src|) ==> r[k] == buf[k]
    decreases |buf| - at
  {
    if src == [] then buf
    else
      var r := Stored(buf[at := src[0]], at + 1, src[1..]);
      assert r[at..at + |src|] == [src[0]] + src[1..];
      r
  }

  /** `Uint8Array.prototype.set(src, at)`: a RangeError when `src` would run past the end. */
  function Store(buf: seq<u8>, at: nat, src: seq<u8>): (r: Result<seq<u8>>)
    ensures r.Ok? <==> at + |src| <= |buf|
    ensures r.Ok? ==> r.value == Stored(buf, at, src)
  {
    if at + |src| <= |buf| then Ok(Stored(buf, at, src)) else RangeError
  }

  /** `buffer.set(src, at)` on the buffer itself; the caller has checked that `src` fits. */
  method SetBytes(buffer: array<u8>, at: nat, src: seq<u8>)
    requires at + |src| <= buffer.Length
    modifies buffer
    ensures buffer[..] == Stored(old(buffer[..]), at, src)
  {
    forall k | 0 <= k < |src| {
      buffer[at + k] := src[k];
    }
    assert forall k :: 0 <= k < buffer.Length ==> buffer[..][k] == Stored(old(buffer[..]), at, src)[k];
  }

  const Two32: int := 0x1_0000_0000

  /** `DataView.getUint16(p, true)`. */
  function U16At(buf: seq<u8>, p: nat): (r: nat)
    requires p + 2 <= |buf|
    ensures r < 0x1_0000
  {
    buf[p] as int + 256 * buf[p + 1] as int
  }

  /** `DataView.getUint32(p, true)`. */
  function U32At(buf: seq<u8>, p: nat): (r: nat)
    requires p + 4 <= |buf|
    ensures r < Two32
  {
    buf[p] as int + 256 * (buf[p + 1] as int + 256 * (buf[p + 2] as int + 256 * buf[p + 3] as int))
  }

  /** The four bytes `DataView.setUint32(p, v, true)` stores for `v`. */
  function U32Bytes(v: int): (r: seq<u8>)
    ensures |r| == 4
  {
    LeBytes(v, 4)
  }

  /** The `n` low bytes of `w` in two's complement, least significant first. */
  function LeBytes(w: int, n: nat): (r: seq<u8>)
    ensures |r| == n
    decreases n, w
  {
    if n == 0 then [] else [w % 256] + LeBytes(w / 256, n - 1)
  }

  /** The stored bytes read back as `v` modulo 2^32. */
  lemma U32BytesValue(v: int)
    ensures U32At(U32Bytes(v), 0) == v % Two32
  {
    var w1 := v / 256;
    var w2 := w1 / 256;
    var w3 := w2 / 256;
    var b0, b1, b2, b3 := v % 256, w1 % 256, w2 % 256, w3 % 256;
    assert LeBytes(w3, 1) == [b3] + LeBytes(w3 / 256, 0);
    assert LeBytes(w2, 2) == [b2] + LeBytes(w3, 1);
    assert LeBytes(w1, 3) == [b1] + LeBytes(w2, 2);
    assert U32Bytes(v) == [b0] + LeBytes(w1, 3) == [b0, b1, b2, b3];
    assert U32At(U32Bytes(v), 0) == b0 + 256 * (b1 + 256 * (b2 + 256 * b3));
    SplitBytes(v, w1, w2, w3, b0, b1, b2, b3);
  }

  /** Peeling off four low bytes leaves `v` modulo 2^32 as their little-endian value. */
  lemma SplitBytes(v: int, w1: int, w2: int, w3: int, b0: int, b1: int, b2: int, b3: int)
    requires w1 == v / 256 && w2 == w1 / 256 && w3 == w2 / 256
    requires b0 == v % 256 && b1 == w1 % 256 && b2 == w2 % 256 && b3 == w3 % 256
    ensures v % Two32 == b0 + 256 * (b1 + 256 * (b2 + 256 * b3))
  {
    var s := b0 + 256 * (b1 + 256 * (b2 + 256 * b3));
    assert v == s + Two32 * (w3 / 256);
    assert 0 <= s < Two32;
  }

  /** A field holding the four bytes `w` reads as `w` does. */
  lemma U32AtOf(buf: seq<u8>, p: nat, w: seq<u8>)
    requires p + 4 <= |buf| && buf[p..p + 4] == w
    ensures U32At(buf, p) == U32At(w, 0)
  {
    assert buf[p] == w[0] && buf[p + 1] == w[1] && buf[p + 2] == w[2] && buf[p + 3] == w[3];
  }

  /** One write of a list of writes: `data` copied to offset `at`. */
  datatype Patch = Patch(at: nat, data: seq<u8>)

  /** Every write lies inside a buffer of length `len`. */
  predicate Fits(len: nat, ps: seq<Patch>)
  {
    forall i :: 0 <= i < |ps| ==> ps[i].at + |ps[i].data| <= len
  }

  /** Each write ends at or before the start of the next one. */
  predicate Ascending(ps: seq<Patch>)
  {
    forall i :: 0 <= i < |ps| - 1 ==> ps[i].at + |ps[i].data| <= ps[i + 1].at
  }

  /** Ascending writes inside a buffer of length `len` that all end by `limit`. */
  predicate WritesBefore(len: nat, ps: seq<Patch>, limit: nat)
  {
    && Fits(len, ps) && Ascending(ps)
    && forall i :: 0 <= i < |ps| ==> ps[i].at + |ps[i].data| <= limit
  }

  /** No write of `ps` covers offset `k`. */
  predicate Untouched(ps: seq<Patch>, k: int)
  {
    forall i :: 0 <= i < |ps| ==> !(ps[i].at <= k < ps[i].at + |ps[i].data|)
  }

  /** The writes of `ps` carried out one after the other; a write that would run past the
      end is skipped. */
  function ApplyPatches(buf: seq<u8>, ps: seq<Patch>): (r: seq<u8>)
    ensures |r| == |buf|
    decreases |ps|
  {
    if ps == [] then buf
    else if ps[0].at + |ps[0].data| <= |buf| then ApplyPatches(Stored(buf, ps[0].at, ps[0].data), ps[1..])
    else ApplyPatches(buf, ps[1..])
  }

  /** A first write that fits is carried out before the rest. */
  lemma ApplyPatchesCons(buf: seq<u8>, p: Patch, ps: seq<Patch>)
    requires p.at + |p.data| <= |buf|
    ensures ApplyPatches(buf, [p] + ps) == ApplyPatches(Stored(buf, p.at, p.data), ps)
  {
    assert ([p] + ps)[1..] == ps;
  }

  /** In ascending writes, every write ends at or before the start of any later one. */
  lemma {:induction false} AscendingApart(ps: seq<Patch>, i: nat, j: nat)
    requires Ascending(ps) && i < j < |ps|
    ensures ps[i].at + |ps[i].data| <= ps[j].at
    decreases j - i
  {
    if j > i + 1 {
      AscendingApart(ps, i + 1, j);
    }
  }

  /** Dropping the first of ascending writes that fit leaves ascending writes that fit. */
  lemma TailWellFormed(len: nat, ps: seq<Patch>)
    requires Fits(len, ps) && Ascending(ps) && ps != []
    ensures Fits(len, ps[1..]) && Ascending(ps[1..])
  {
    var rest := ps[1..];
    forall i | 0 <= i < |rest| ensures rest[i].at + |rest[i].data| <= len {
      assert rest[i] == ps[i + 1];
    }
    forall i | 0 <= i < |rest| - 1 ensures rest[i].at + |rest[i].data| <= rest[i + 1].at {
      assert rest[i] == ps[i + 1] && rest[i + 1] == ps[i + 2];
    }
  }

  /** A byte that no write covers keeps its original value. */
  lemma {:induction false} ApplyPatchesUntouched(buf: seq<u8>, ps: seq<Patch>, k: nat)
    requires k < |buf| && Untouched(ps, k)
    ensures ApplyPatches(buf, ps)[k] == buf[k]
    decreases |ps|
  {
    if ps != [] {
      var rest := ps[1..];
      assert Untouched(rest, k) by {
        forall i | 0 <= i < |rest| ensures !(rest[i].at <= k < rest[i].at + |rest[i].data|) {
          assert rest[i] == ps[i + 1];
        }
      }
      if ps[0].at + |ps[0].data| <= |buf| {
        assert !(ps[0].at <= k < ps[0].at + |ps[0].data|);
        ApplyPatchesUntouched(Stored(buf, ps[0].at, ps[0].data), rest, k);
      } else {
        ApplyPatchesUntouched(buf, rest, k);
      }
    }
  }

  /** The later ones of ascending writes leave the bytes of the first one alone. */
  lemma FirstWriteSurvives(buf: seq<u8>, ps: seq<Patch>, k: nat)
    requires Ascending(ps) && ps != [] && ps[0].at <= k < ps[0].at + |ps[0].data| && k < |buf|
    ensures ApplyPatches(buf, ps[1..])[k] == buf[k]
  {
    var rest := ps[1..];
    forall j | 0 <= j < |rest| ensures !(rest[j].at <= k < rest[j].at + |rest[j].data|) {
      AscendingApart(ps, 0, j + 1);
      assert rest[j] == ps[j + 1];
    }
    ApplyPatchesUntouched(buf, rest, k);
  }

  /** After ascending writes that fit, the bytes of write `i` are in place: no later write
      overwrites them. */
  lemma {:induction false} ApplyPatchesWritten(buf: seq<u8>, ps: seq<Patch>, i: nat)
    requires Fits(|buf|, ps) && Ascending(ps) && i < |ps|
    ensures ps[i].at + |ps[i].data| <= |buf|
    ensures ApplyPatches(buf, ps)[ps[i].at..ps[i].at + |ps[i].data|] == ps[i].data
    decreases i
  {
    var rest := ps[1..];
    var a0, n0 := ps[0].at, |ps[0].data|;
    var buf1 := Stored(buf, a0, ps[0].data);
    var r := ApplyPatches(buf1, rest);
    assert ApplyPatches(buf, ps) == r;
    if i == 0 {
      forall k | a0 <= k < a0 + n0 ensures r[k] == buf1[k] {
        FirstWriteSurvives(buf1, ps, k);
      }
      assert r[a0..a0 + n0] == buf1[a0..a0 + n0] == ps[0].data;
    } else {
      TailWellFormed(|buf|, ps);
      ApplyPatchesWritten(buf1, rest, i - 1);
      assert rest[i - 1] == ps[i];
    }
  }

  /** Running `ps` and then `qs` is running `ps + qs`. */
  lemma {:induction false} ApplyPatchesAppend(buf: seq<u8>, ps: seq<Patch>, qs: seq<Patch>)
    ensures ApplyPatches(buf, ps + qs) == ApplyPatches(ApplyPatches(buf, ps), qs)
    decreases |ps|
  {
    if ps == [] {
      assert ps + qs == qs;
    } else {
      assert (ps + qs)[1..] == ps[1..] + qs;
      if ps[0].at + |ps[0].data| <= |buf| {
        ApplyPatchesAppend(Stored(buf, ps[0].at, ps[0].data), ps[1..], qs);
      } else {
        ApplyPatchesAppend(buf, ps[1..], qs);
      }
    }
  }
}
