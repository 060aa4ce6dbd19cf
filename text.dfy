/** The string handling of the document patcher. Every string it builds or decodes is
    ASCII, so a string is represented by its bytes: TextEncoder and TextDecoder are the
    identity on them. Numbers are JavaScript Numbers restricted to integers, with NaN as
    `None`.

    The patcher reads its numbers as `parseInt(decoder.decode(buffer.slice(from, to)).trim())`.
    `ParseField` and `HeaderCountAt` read the same numbers in place, on the window of the
    buffer that `slice` would copy; `ParseFieldLiteral` and `HeaderCountLiteral` prove that
    they agree with the copy-trim-parse reading. */
module Text {
  import opened Bytes

  /** The character '0'. */
  const Zero: u8 := 48

  /** The three characters "NaN". */
  const NaNText: seq<u8> := [78, 97, 78]

  predicate IsDigit(c: u8) { 48 <= c <= 57 }

  predicate AllDigits(s: seq<u8>)
  {
    forall i :: 0 <= i < |s| ==> IsDigit(s[i])
  }

  /** The offsets from `lo` up to `hi` lie in `s` and hold decimal digits. */
  predicate DigitsBetween(s: seq<u8>, lo: nat, hi: nat)
  {
    hi <= |s| && forall k :: lo <= k < hi ==> IsDigit(s[k])
  }

  /** The ASCII characters that String.prototype.trim removes and parseInt skips:
      tab, line feed, vertical tab, form feed, carriage return and space. */
  predicate IsSpace(c: u8) { c == 32 || 9 <= c <= 13 }

  predicate NoLineFeed(s: seq<u8>)
  {
    forall i :: 0 <= i < |s| ==> s[i] != LF
  }

  /** `padChar.repeat(n)`. */
  function Repeat(c: u8, n: nat): (r: seq<u8>)
    ensures |r| == n
  {
    seq(n, _ => c)
  }

  /** `padLeft(str, targetLen, padChar)`: `str` preceded by as many copies of `padChar` as it
      takes to reach `targetLen` characters; a longer `str` is returned as it is. */
  function PadLeft(str: seq<u8>, targetLen: int, padChar: u8): (r: seq<u8>)
    ensures |r| == Max(targetLen, |str|)
  {
    Repeat(padChar, Max(0, targetLen - |str|)) + str
  }

  /** The value of a run of decimal digits, most significant first. */
  function DigitsValue(s: seq<u8>): (r: nat)
    requires AllDigits(s)
    decreases |s|
  {
    if s == [] then 0 else 10 * DigitsValue(s[..|s| - 1]) + (s[|s| - 1] - 48)
  }

  /** The decimal digits of `n` as Number.prototype.toString writes them. */
  function Decimal(n: nat): (r: seq<u8>)
    ensures 1 <= |r|
    decreases n
  {
    if n < 10 then [48 + n] else Decimal(n / 10) + [48 + n % 10]
  }

  /** `value.toString()` for an integral Number or NaN: an optional minus sign followed by
      decimal digits, or "NaN". */
  function NumberToString(v: Option<int>): (r: seq<u8>)
    ensures 1 <= |r|
  {
    match v
    case None => NaNText
    case Some(n) => if n < 0 then [45] + Decimal(-n) else Decimal(n)
  }

  /** The Number `v + base`: NaN stays NaN. */
  function AddNumber(v: Option<int>, base: int): (r: Option<int>)
  {
    match v
    case None => None
    case Some(n) => Some(n + base)
  }

  /** The number of iterations of `for (let i = 0; i < count; i++)`: none for NaN or a count
      below one. */
  function IterCount(count: Option<int>): (r: nat)
  {
    if count.Some? && count.value > 0 then count.value else 0
  }

  /** `padLeft(value.toString(), 10).slice(0, 10)`: the ten-character entry field. */
  function Render10(v: Option<int>): (r: seq<u8>)
    ensures |r| == 10
  {
    PadLeft(NumberToString(v), 10, Zero)[..10]
  }

  /** 10^10: the smallest value that needs more than ten digits. */
  const TenDigitLimit: nat := 10_000_000_000

  function Pow10(k: nat): (r: nat)
    ensures r >= 1
  {
    if k == 0 then 1 else 10 * Pow10(k - 1)
  }

  /** The first offset from `i` on, below `hi`, that does not hold white space, or `hi`. */
  function SkipSpaces(s: seq<u8>, i: nat, hi: nat): (r: nat)
    requires i <= hi <= |s|
    ensures i <= r <= hi
    decreases hi - i
  {
    if i < hi && IsSpace(s[i]) then SkipSpaces(s, i + 1, hi) else i
  }

  /** The end of `s[lo..j]` once its trailing white space is dropped. */
  function SkipSpacesBack(s: seq<u8>, lo: nat, j: nat): (r: nat)
    requires lo <= j <= |s|
    ensures lo <= r <= j
    decreases j - lo
  {
    if j > lo && IsSpace(s[j - 1]) then SkipSpacesBack(s, lo, j - 1) else j
  }

  /** The first offset from `i` on, below `hi`, that does not hold a decimal digit, or `hi`. */
  function SkipDigits(s: seq<u8>, i: nat, hi: nat): (r: nat)
    requires i <= hi <= |s|
    ensures i <= r <= hi
    decreases hi - i
  {
    if i < hi && IsDigit(s[i]) then SkipDigits(s, i + 1, hi) else i
  }

  /** The value of the decimal digit `c`. */
  function DigitValue(c: u8): (r: nat)
  {
    if IsDigit(c) then c - 48 else 0
  }

  /** The value of the digits `s[lo..hi]`. */
  function DigitsIn(s: seq<u8>, lo: nat, hi: nat): (r: nat)
    requires lo <= hi <= |s|
    decreases hi - lo
  {
    if hi == lo then 0 else 10 * DigitsIn(s, lo, hi - 1) + DigitValue(s[hi - 1])
  }

  /** `parseInt(s[lo..hi], 10)`: skip leading white space, take an optional sign and then the
      longest run of decimal digits; NaN when there is no digit. */
  function ParseIntIn(s: seq<u8>, lo: nat, hi: nat): (r: Option<int>)
    requires lo <= hi <= |s|
  {
    var i := SkipSpaces(s, lo, hi);
    var negative := i < hi && s[i] == 45;
    var first := if i < hi && (s[i] == 45 || s[i] == 43) then i + 1 else i;
    var end := SkipDigits(s, first, hi);
    if end == first then None
    else if negative then Some(-(DigitsIn(s, first, end) as int))
    else Some(DigitsIn(s, first, end))
  }

  /** `parseInt(s, 10)`. */
  function ParseInt(s: seq<u8>): (r: Option<int>)
  {
    ParseIntIn(s, 0, |s|)
  }

  /** `s.trim()`: leading and trailing white space removed. */
  function Trim(s: seq<u8>): (r: seq<u8>)
  {
    var a := SkipSpaces(s, 0, |s|);
    s[a..SkipSpacesBack(s, a, |s|)]
  }

  /** Where the last field of `s[lo..j].replace(/\n/g, " ").split(" ")` starts: just after
      the last space or line feed before `j`, or at `lo` when there is none. */
  function FieldStart(s: seq<u8>, lo: nat, j: nat): (r: nat)
    requires lo <= j <= |s|
    ensures lo <= r <= j
    decreases j - lo
  {
    if j == lo || s[j - 1] == 32 || s[j - 1] == LF then j else FieldStart(s, lo, j - 1)
  }

  /** `parseInt(header.trim().replace(/\n/g, " ").split(" ").pop() || "0", 10)`: the declared
      entry count of a cross-reference header such as "xref\n0 6\n". */
  function HeaderCount(header: seq<u8>): (r: Option<int>)
  {
    var t := Trim(header);
    var field := t[FieldStart(t, 0, |t|)..];
    ParseInt(if field == [] then [Zero] else field)
  }

  /** `parseInt(decoder.decode(buf.slice(from, to)).trim(), 10)`, read in place on the
      window `slice` copies. */
  function ParseField(buf: seq<u8>, from: nat, to: nat): (r: Option<int>)
  {
    var lo := Min(from, |buf|);
    ParseIntIn(buf, lo, Max(lo, Min(to, |buf|)))
  }

  /** `HeaderCount(decoder.decode(buf.slice(from, to)))`, read in place on the window `slice`
      copies. */
  function HeaderCountAt(buf: seq<u8>, from: nat, to: nat): (r: Option<int>)
  {
    var lo := Min(from, |buf|);
    HeaderCountIn(buf, lo, Max(lo, Min(to, |buf|)))
  }

  /** The count declared by the header window `buf[lo..hi]`, read in place: the last field
      of the window without its surrounding white space, or 0 when nothing is left. */
  function HeaderCountIn(buf: seq<u8>, lo: nat, hi: nat): (r: Option<int>)
    requires lo <= hi <= |buf|
  {
    var a := SkipSpaces(buf, lo, hi);
    var e := SkipSpacesBack(buf, a, hi);
    if a == e then Some(0) else ParseIntIn(buf, FieldStart(buf, a, e), e)
  }

  /** `padLeft` keeps `str` as the tail of its result and fills everything before it with
      `padChar`. */
  lemma {:induction false} PadLeftSpec(str: seq<u8>, targetLen: int, padChar: u8)
    ensures var r := PadLeft(str, targetLen, padChar);
      && |r| == Max(targetLen, |str|)
      && r[|r| - |str|..] == str
      && (forall i :: 0 <= i < |r| - |str| ==> r[i] == padChar)
  {
    var z := Repeat(padChar, Max(0, targetLen - |str|));
    assert PadLeft(str, targetLen, padChar) == z + str;
    assert forall i :: 0 <= i < |z| ==> z[i] == padChar;
  }

  /** Number.prototype.toString writes at least one digit, no leading zero, and digits that
      read back as `n`. */
  lemma {:induction false} DecimalSpec(n: nat)
    ensures var r := Decimal(n);
      && 1 <= |r| && AllDigits(r)
      && (|r| > 1 ==> r[0] != Zero)
      && DigitsValue(r) == n
    decreases n
  {
    if n >= 10 {
      DecimalSpec(n / 10);
      var d := Decimal(n / 10);
      var r := Decimal(n);
      assert r == d + [48 + n % 10];
      assert r[..|r| - 1] == d;
      assert r[0] == d[0];
    }
  }

  /** toString never writes a line feed, and what it writes neither starts nor ends with
      white space. */
  lemma {:induction false} NumberToStringShape(v: Option<int>)
    ensures var r := NumberToString(v);
      && 1 <= |r| && NoLineFeed(r)
      && !IsSpace(r[0]) && !IsSpace(r[|r| - 1])
  {
    if v.Some? {
      var n := v.value;
      var d := Decimal(if n < 0 then -n else n);
      DecimalSpec(if n < 0 then -n else n);
      var r := NumberToString(v);
      if n < 0 {
        assert r == [45] + d;
        assert forall k :: 1 <= k < |r| ==> r[k] == d[k - 1];
      }
    }
  }

  /** An entry field is always ten characters and never holds a line feed; a value of more
      than ten characters keeps its leftmost ten. */
  lemma {:induction false} Render10Shape(v: Option<int>)
    ensures var r := Render10(v);
      && |r| == 10 && NoLineFeed(r)
      && (|NumberToString(v)| >= 10 ==> r == NumberToString(v)[..10])
  {
    var s := NumberToString(v);
    NumberToStringShape(v);
    PadLeftSpec(s, 10, Zero);
    var p := PadLeft(s, 10, Zero);
    assert forall i :: 0 <= i < |p| ==> p[i] != LF by {
      forall i | 0 <= i < |p| ensures p[i] != LF {
        if i < |p| - |s| {
        } else {
          assert p[i] == p[|p| - |s|..][i - (|p| - |s|)];
        }
      }
    }
    if |s| >= 10 {
      assert p == s;
    }
  }

  /** `SkipSpaces` passes over white space only and stops at a byte that is not white space. */
  lemma {:induction false} SkipSpacesSpec(s: seq<u8>, i: nat, hi: nat)
    requires i <= hi <= |s|
    ensures var r := SkipSpaces(s, i, hi);
      && (forall k :: i <= k < r ==> IsSpace(s[k]))
      && (r < hi ==> !IsSpace(s[r]))
    decreases hi - i
  {
    if i < hi && IsSpace(s[i]) {
      SkipSpacesSpec(s, i + 1, hi);
    }
  }

  /** `SkipSpacesBack` drops white space only and stops behind a byte that is not white
      space. */
  lemma {:induction false} SkipSpacesBackSpec(s: seq<u8>, lo: nat, j: nat)
    requires lo <= j <= |s|
    ensures var r := SkipSpacesBack(s, lo, j);
      && (forall k :: r <= k < j ==> IsSpace(s[k]))
      && (lo < r ==> !IsSpace(s[r - 1]))
    decreases j - lo
  {
    if j > lo && IsSpace(s[j - 1]) {
      SkipSpacesBackSpec(s, lo, j - 1);
    }
  }

  /** The bytes `SkipDigits` passes over are digits, and it stops at the first byte that is
      not one. */
  lemma {:induction false} SkipDigitsSpec(s: seq<u8>, i: nat, hi: nat)
    requires i <= hi <= |s|
    ensures var r := SkipDigits(s, i, hi);
      && DigitsBetween(s, i, r)
      && (r < hi ==> !IsDigit(s[r]))
    decreases hi - i
  {
    if i < hi && IsDigit(s[i]) {
      SkipDigitsSpec(s, i + 1, hi);
    }
  }

  /** Over a run of digits, `SkipDigits` reaches the end of the window. */
  lemma {:induction false} SkipDigitsOfDigits(s: seq<u8>, i: nat, hi: nat)
    requires i <= hi && DigitsBetween(s, i, hi)
    ensures SkipDigits(s, i, hi) == hi
    decreases hi - i
  {
    if i < hi {
      SkipDigitsOfDigits(s, i + 1, hi);
    }
  }

  /** A digit run that stops at `b` stops there in any wider window too. */
  lemma {:induction false} SkipDigitsCut(s: seq<u8>, i: nat, b: nat, hi: nat)
    requires i <= b <= hi <= |s| && (b < hi ==> !IsDigit(s[b]))
    ensures SkipDigits(s, i, b) == SkipDigits(s, i, hi)
    decreases b - i
  {
    if i < b {
      SkipDigitsCut(s, i + 1, b, hi);
    }
  }

  /** `t[i..j]` holds the bytes of `s[i + d..j + d]`. */
  predicate Agree(t: seq<u8>, s: seq<u8>, d: nat, i: nat, j: nat)
  {
    i <= j <= |t| && j + d <= |s| && forall k :: i <= k < j ==> t[k] == s[k + d]
  }

  /** Skipping white space in `t` is skipping it in `s`, shifted by `d`. */
  lemma {:induction false} SkipSpacesShift(t: seq<u8>, s: seq<u8>, d: nat, i: nat, j: nat)
    requires Agree(t, s, d, i, j)
    ensures SkipSpaces(t, i, j) + d == SkipSpaces(s, i + d, j + d)
    decreases j - i
  {
    if i < j {
      SkipSpacesShift(t, s, d, i + 1, j);
    }
  }

  lemma {:induction false} SkipSpacesBackShift(t: seq<u8>, s: seq<u8>, d: nat, i: nat, j: nat)
    requires Agree(t, s, d, i, j)
    ensures SkipSpacesBack(t, i, j) + d == SkipSpacesBack(s, i + d, j + d)
    decreases j - i
  {
    if i < j {
      SkipSpacesBackShift(t, s, d, i, j - 1);
    }
  }

  lemma {:induction false} SkipDigitsShift(t: seq<u8>, s: seq<u8>, d: nat, i: nat, j: nat)
    requires Agree(t, s, d, i, j)
    ensures SkipDigits(t, i, j) + d == SkipDigits(s, i + d, j + d)
    decreases j - i
  {
    if i < j {
      SkipDigitsShift(t, s, d, i + 1, j);
    }
  }

  lemma {:induction false} DigitsInShift(t: seq<u8>, s: seq<u8>, d: nat, i: nat, j: nat)
    requires Agree(t, s, d, i, j)
    ensures DigitsIn(t, i, j) == DigitsIn(s, i + d, j + d)
    decreases j - i
  {
    if i < j {
      DigitsInShift(t, s, d, i, j - 1);
    }
  }

  lemma {:induction false} FieldStartShift(t: seq<u8>, s: seq<u8>, d: nat, i: nat, j: nat)
    requires Agree(t, s, d, i, j)
    ensures FieldStart(t, i, j) + d == FieldStart(s, i + d, j + d)
    decreases j - i
  {
    if i < j {
      FieldStartShift(t, s, d, i, j - 1);
    }
  }

  /** parseInt reads the same number from two buffers that agree on the window. */
  lemma {:induction false} ParseIntInShift(t: seq<u8>, s: seq<u8>, d: nat, i: nat, j: nat)
    requires Agree(t, s, d, i, j)
    ensures ParseIntIn(t, i, j) == ParseIntIn(s, i + d, j + d)
  {
    SkipSpacesShift(t, s, d, i, j);
    var a := SkipSpaces(t, i, j);
    if a < j {
      assert t[a] == s[a + d];
    }
    var first := if a < j && (t[a] == 45 || t[a] == 43) then a + 1 else a;
    SkipDigitsShift(t, s, d, first, j);
    var end := SkipDigits(t, first, j);
    if end > first {
      DigitsInShift(t, s, d, first, end);
    }
  }

  /** A field read from a window of `t` reads the same from `s`, shifted by `d`. */
  lemma {:induction false} ParseFieldShift(t: seq<u8>, s: seq<u8>, d: nat, i: nat, j: nat)
    requires Agree(t, s, d, i, j)
    ensures ParseField(t, i, j) == ParseField(s, i + d, j + d)
  {
    assert Min(i, |t|) == i && Max(i, Min(j, |t|)) == j;
    assert Min(i + d, |s|) == i + d && Max(i + d, Min(j + d, |s|)) == j + d;
    ParseIntInShift(t, s, d, i, j);
  }

  /** Two buffers of one length that agree from `from` on read the same field there. */
  lemma {:induction false} ParseFieldAgree(t: seq<u8>, s: seq<u8>, from: nat, to: nat)
    requires |t| == |s| && forall k :: from <= k < |s| ==> t[k] == s[k]
    ensures ParseField(t, from, to) == ParseField(s, from, to)
  {
    var lo := Min(from, |s|);
    ParseIntInShift(t, s, 0, lo, Max(lo, Min(to, |s|)));
  }

  /** A copy `s[lo..hi]` agrees with `s` shifted by `lo`. */
  lemma {:induction false} SliceAgrees(s: seq<u8>, lo: nat, hi: nat)
    requires lo <= hi <= |s|
    ensures Agree(s[lo..hi], s, lo, 0, hi - lo)
  {
  }

  /** parseInt gives the same number on a window as on that window without its leading and
      trailing white space. */
  lemma {:induction false} ParseTrimmedWindow(s: seq<u8>, lo: nat, hi: nat)
    requires lo <= hi <= |s|
    ensures var a := SkipSpaces(s, lo, hi);
      ParseIntIn(s, a, SkipSpacesBack(s, a, hi)) == ParseIntIn(s, lo, hi)
  {
    var a := SkipSpaces(s, lo, hi);
    var b := SkipSpacesBack(s, a, hi);
    SkipSpacesSpec(s, lo, hi);
    SkipSpacesBackSpec(s, a, hi);
    assert a < hi ==> a < b;
    assert SkipSpaces(s, a, b) == a;
    var first := if a < hi && (s[a] == 45 || s[a] == 43) then a + 1 else a;
    SkipDigitsCut(s, first, b, hi);
  }

  /** parseInt of a copy `s[lo..hi]` is parseInt of the window in place. */
  lemma {:induction false} ParseSlice(s: seq<u8>, lo: nat, hi: nat)
    requires lo <= hi <= |s|
    ensures ParseInt(s[lo..hi]) == ParseIntIn(s, lo, hi)
  {
    SliceAgrees(s, lo, hi);
    ParseIntInShift(s[lo..hi], s, lo, 0, hi - lo);
  }

  /** A window that holds the text `w` reads as `w` does, and holds digits when `w` does. */
  lemma {:induction false} FieldReads(s: seq<u8>, lo: nat, w: seq<u8>)
    requires lo + |w| <= |s| && s[lo..lo + |w|] == w
    ensures AllDigits(w) ==> DigitsBetween(s, lo, lo + |w|)
    ensures ParseField(s, lo, lo + |w|) == ParseInt(w)
  {
    assert forall k :: lo <= k < lo + |w| ==> s[k] == w[k - lo];
    ParseSlice(s, lo, lo + |w|);
  }

  /** parseInt skips leading white space and stops before trailing white space, so trimming
      first changes nothing. */
  lemma {:induction false} ParseTrim(x: seq<u8>)
    ensures ParseInt(Trim(x)) == ParseInt(x)
  {
    var a := SkipSpaces(x, 0, |x|);
    ParseSlice(x, a, SkipSpacesBack(x, a, |x|));
    ParseTrimmedWindow(x, 0, |x|);
  }

  /** A window read in place parses like its trimmed copy. */
  lemma {:induction false} ParseFieldLiteral(buf: seq<u8>, from: nat, to: nat)
    ensures ParseField(buf, from, to) == ParseInt(Trim(Slice(buf, from, to)))
  {
    var lo := Min(from, |buf|);
    var hi := Max(lo, Min(to, |buf|));
    assert Slice(buf, from, to) == buf[lo..hi];
    ParseTrim(buf[lo..hi]);
    ParseSlice(buf, lo, hi);
  }

  /** The count of a whole header, read in place, is its `HeaderCount`. */
  lemma {:induction false} HeaderCountInPlace(x: seq<u8>)
    ensures HeaderCountIn(x, 0, |x|) == HeaderCount(x)
  {
    var a := SkipSpaces(x, 0, |x|);
    var b := SkipSpacesBack(x, a, |x|);
    var t := Trim(x);
    if a == b {
      assert t == [];
      ParseDigits([Zero]);
    } else {
      TrimLastField(x);
      var f := FieldStart(x, a, b);
      assert t[f - a..] == x[f..b];
      ParseSlice(x, f, b);
    }
  }

  /** The last field of a trimmed, non-empty string is not empty, and it starts where the
      last field of the untrimmed window does. */
  lemma {:induction false} TrimLastField(x: seq<u8>)
    requires Trim(x) != []
    ensures var a := SkipSpaces(x, 0, |x|);
      var b := SkipSpacesBack(x, a, |x|);
      var t := Trim(x);
      FieldStart(t, 0, |t|) + a == FieldStart(x, a, b) < b
  {
    var a := SkipSpaces(x, 0, |x|);
    var b := SkipSpacesBack(x, a, |x|);
    var t := Trim(x);
    SkipSpacesBackSpec(x, a, |x|);
    assert t[|t| - 1] == x[b - 1];
    SliceAgrees(x, a, b);
    FieldStartShift(t, x, a, 0, |t|);
  }

  /** The last field of two windows that agree reads as the same number. */
  lemma {:induction false} LastFieldShift(t: seq<u8>, s: seq<u8>, d: nat, i: nat, j: nat)
    requires Agree(t, s, d, i, j)
    ensures ParseIntIn(t, FieldStart(t, i, j), j) == ParseIntIn(s, FieldStart(s, i + d, j + d), j + d)
  {
    FieldStartShift(t, s, d, i, j);
    ParseIntInShift(t, s, d, FieldStart(t, i, j), j);
  }

  /** The count of a copy `s[lo..hi]` is the count of the window in place. */
  lemma {:induction false} HeaderCountShift(s: seq<u8>, lo: nat, hi: nat)
    requires lo <= hi <= |s|
    ensures HeaderCountIn(s[lo..hi], 0, hi - lo) == HeaderCountIn(s, lo, hi)
  {
    SliceAgrees(s, lo, hi);
    HeaderCountInShift(s[lo..hi], s, lo, 0, hi - lo);
  }

  /** Two windows that agree declare the same count. */
  lemma {:induction false} HeaderCountInShift(t: seq<u8>, s: seq<u8>, d: nat, i: nat, j: nat)
    requires Agree(t, s, d, i, j)
    ensures HeaderCountIn(t, i, j) == HeaderCountIn(s, i + d, j + d)
  {
    SkipSpacesShift(t, s, d, i, j);
    var a := SkipSpaces(t, i, j);
    SkipSpacesBackShift(t, s, d, a, j);
    var e := SkipSpacesBack(t, a, j);
    assert SkipSpaces(s, i + d, j + d) == a + d;
    assert SkipSpacesBack(s, a + d, j + d) == e + d;
    if a < e {
      LastFieldShift(t, s, d, a, e);
    }
  }

  /** A header read in place gives the count of its copy. */
  lemma {:induction false} HeaderCountLiteral(buf: seq<u8>, from: nat, to: nat)
    ensures HeaderCountAt(buf, from, to) == HeaderCount(Slice(buf, from, to))
  {
    var lo := Min(from, |buf|);
    var hi := Max(lo, Min(to, |buf|));
    assert Slice(buf, from, to) == buf[lo..hi];
    HeaderCountInPlace(buf[lo..hi]);
    HeaderCountShift(buf, lo, hi);
  }

  /** The digit recursion read in place agrees with `DigitsValue` on the prefix. */
  lemma {:induction false} DigitsInValue(s: seq<u8>, n: nat)
    requires DigitsBetween(s, 0, n)
    ensures AllDigits(s[..n]) && DigitsIn(s, 0, n) == DigitsValue(s[..n])
    decreases n
  {
    if n > 0 {
      DigitsInValue(s, n - 1);
      assert s[..n][..n - 1] == s[..n - 1];
    }
  }

  /** Leading zeros do not change the value of a digit run. */
  lemma {:induction false} LeadingZeros(z: nat, s: seq<u8>)
    requires AllDigits(s)
    ensures AllDigits(Repeat(Zero, z) + s)
    ensures DigitsValue(Repeat(Zero, z) + s) == DigitsValue(s)
    decreases |s|
  {
    var t := Repeat(Zero, z) + s;
    if s == [] {
      assert t == Repeat(Zero, z);
      ZerosValue(z);
    } else {
      LeadingZeros(z, s[..|s| - 1]);
      assert t[..|t| - 1] == Repeat(Zero, z) + s[..|s| - 1];
    }
  }

  lemma {:induction false} ZerosValue(z: nat)
    ensures DigitsValue(Repeat(Zero, z)) == 0
    decreases z
  {
    if z > 0 {
      ZerosValue(z - 1);
      assert Repeat(Zero, z)[..z - 1] == Repeat(Zero, z - 1);
    }
  }

  /** A number below 10^k has at most k decimal digits. */
  lemma {:induction false} DecimalLength(n: nat, k: nat)
    requires 1 <= k && n < Pow10(k)
    ensures |Decimal(n)| <= k
    decreases n
  {
    if n >= 10 {
      DecimalLength(n / 10, k - 1);
    }
  }

  /** A run of digits parses to its value. */
  lemma {:induction false} ParseDigits(s: seq<u8>)
    requires AllDigits(s) && s != []
    ensures ParseInt(s) == Some(DigitsValue(s))
  {
    assert SkipSpaces(s, 0, |s|) == 0;
    SkipDigitsOfDigits(s, 0, |s|);
    DigitsInValue(s, |s|);
    assert s[..|s|] == s;
  }

  /** A window of digits parses in place to its value. */
  lemma {:induction false} ParseDigitsIn(s: seq<u8>, lo: nat, hi: nat)
    requires lo < hi && DigitsBetween(s, lo, hi)
    ensures ParseIntIn(s, lo, hi) == Some(DigitsIn(s, lo, hi))
  {
    assert SkipSpaces(s, lo, hi) == lo;
    SkipDigitsOfDigits(s, lo, hi);
  }

  /** A minus sign followed by a run of digits parses to the negated value. */
  lemma {:induction false} ParseNegative(d: seq<u8>)
    requires AllDigits(d) && d != []
    ensures ParseInt([45] + d) == Some(-(DigitsValue(d) as int))
  {
    var s := [45] + d;
    assert SkipSpaces(s, 0, |s|) == 0;
    assert forall k :: 1 <= k < |s| ==> s[k] == d[k - 1];
    SkipDigitsOfDigits(s, 1, |s|);
    DigitsInShift(d, s, 1, 0, |d|);
    DigitsInValue(d, |d|);
    assert d[..|d|] == d;
  }

  /** parseInt reads back what toString wrote: the round trip of the startxref value. */
  lemma {:induction false} ParseNumberToString(n: int)
    ensures ParseInt(NumberToString(Some(n))) == Some(n)
  {
    if n < 0 {
      DecimalSpec(-n);
      ParseNegative(Decimal(-n));
    } else {
      DecimalSpec(n);
      ParseDigits(Decimal(n));
    }
  }

  /** A ten-character entry field reads back as the value it was rendered from, as long as
      that value has at most ten digits; it is then ten zero-padded digits. */
  lemma {:induction false} Render10RoundTrip(n: nat)
    requires n < TenDigitLimit
    ensures AllDigits(Render10(Some(n)))
    ensures ParseInt(Render10(Some(n))) == Some(n)
  {
    var d := Decimal(n);
    DecimalSpec(n);
    TenDigits(n);
    var z := Repeat(Zero, 10 - |d|);
    Render10Padded(n);
    var r := Render10(Some(n));
    assert r == z + d;
    LeadingZeros(10 - |d|, d);
    ParseDigits(z + d);
  }

  lemma {:induction false} TenDigits(n: nat)
    requires n < TenDigitLimit
    ensures |Decimal(n)| <= 10
  {
    assert Pow10(10) == TenDigitLimit;
    DecimalLength(n, 10);
  }

  /** A value of at most ten digits is rendered as its digits behind leading zeros. */
  lemma {:induction false} Render10Padded(n: nat)
    requires |Decimal(n)| <= 10
    ensures Render10(Some(n)) == Repeat(Zero, 10 - |Decimal(n)|) + Decimal(n)
  {
    var d := Decimal(n);
    assert NumberToString(Some(n)) == d;
    assert PadLeft(d, 10, Zero) == Repeat(Zero, 10 - |d|) + d;
  }
}
