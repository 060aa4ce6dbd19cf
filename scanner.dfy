/** The byte-pattern scanner shared by the patchers: `findSubArrayIndex`, and the typed-array
    `indexOf` the document patcher uses to find line ends. */
module Scanner {
  import opened Bytes

  /** `s` occurs in `a` starting at offset `i`. */
  predicate MatchAt(a: seq<u8>, s: seq<u8>, i: int)
  {
    0 <= i && i + |s| <= |a| && a[i..i + |s|] == s
  }

  /** The byte-by-byte comparison of `findSubArrayIndex` from position `j` of `s` on:
      `a[i + k] == s[k]` for every `k` from `j` to the end of `s`. */
  predicate SameFrom(a: seq<u8>, s: seq<u8>, i: nat, j: nat)
    requires i + |s| <= |a| && j <= |s|
    decreases |a| - (i + j)
  {
    j == |s| || (a[i + j] == s[j] && SameFrom(a, s, i, j + 1))
  }

  /** The comparison succeeds exactly when the bytes from `i + j` on are those of `s[j..]`. */
  lemma {:induction false} SameFromSpec(a: seq<u8>, s: seq<u8>, i: nat, j: nat)
    requires i + |s| <= |a| && j <= |s|
    ensures SameFrom(a, s, i, j) <==> forall k :: j <= k < |s| ==> a[i + k] == s[k]
    decreases |a| - (i + j)
  {
    if j < |s| {
      SameFromSpec(a, s, i, j + 1);
    }
  }

  /** The comparison from the start of `s` is an occurrence of `s`. */
  lemma {:induction false} SameFromMatch(a: seq<u8>, s: seq<u8>, i: nat)
    requires i + |s| <= |a|
    ensures SameFrom(a, s, i, 0) <==> MatchAt(a, s, i)
  {
    SameFromSpec(a, s, i, 0);
    var w := a[i..i + |s|];
    assert forall k :: 0 <= k < |s| ==> w[k] == a[i + k];
  }

  /** The first occurrence of `s` in `a` at or after `from`, or -1 when there is none. */
  function FirstMatch(a: seq<u8>, s: seq<u8>, from: nat): (r: int)
    ensures r == -1 || from <= r
    decreases |a| + 1 - from
  {
    if from + |s| > |a| then -1
    else if SameFrom(a, s, from, 0) then from
    else FirstMatch(a, s, from + 1)
  }

  /** `FirstMatch` finds an occurrence, and no occurrence comes before the one it finds: it
      is -1 exactly when `s` does not occur at or after `from`. */
  lemma {:induction false} FirstMatchSpec(a: seq<u8>, s: seq<u8>, from: nat)
    ensures var r := FirstMatch(a, s, from);
      && (r == -1 || (from <= r && MatchAt(a, s, r)))
      && (forall i :: from <= i && MatchAt(a, s, i) ==> 0 <= r <= i)
    decreases |a| + 1 - from
  {
    if from + |s| <= |a| {
      SameFromMatch(a, s, from);
      if !SameFrom(a, s, from, 0) {
        FirstMatchSpec(a, s, from + 1);
      }
    }
  }

  /** `findSubArrayIndex(array, subArray, startIndex)`: tries every start from `startIndex`
      up to `array.length - subArray.length`, comparing byte by byte, and returns the first
      one that matches. The array is only read. */
  method FindSubArrayIndex(a: array<u8>, subArray: seq<u8>, startIndex: nat) returns (r: int)
    ensures r == FirstMatch(a[..], subArray, startIndex)
  {
    var i := startIndex;
    while i <= a.Length - |subArray|
      invariant startIndex <= i
      invariant FirstMatch(a[..], subArray, i) == FirstMatch(a[..], subArray, startIndex)
      decreases a.Length - i
    {
      var matched := MatchesAt(a, subArray, i);
      if matched {
        return i;
      }
      i := i + 1;
    }
    return -1;
  }

  /** The inner loop of `findSubArrayIndex`: compares `subArray` with the bytes from `i` on,
      one by one, and stops at the first difference. */
  method MatchesAt(a: array<u8>, subArray: seq<u8>, i: nat) returns (matched: bool)
    requires i + |subArray| <= a.Length
    ensures matched == SameFrom(a[..], subArray, i, 0)
  {
    var j := 0;
    while j < |subArray|
      invariant 0 <= j <= |subArray|
      invariant SameFrom(a[..], subArray, i, 0) == SameFrom(a[..], subArray, i, j)
    {
      if a[i + j] != subArray[j] {
        return false;
      }
      j := j + 1;
    }
    return true;
  }

  /** `buffer.indexOf(x, from)` for a start that is not negative: the first offset at or after
      `from` holding `x`, or -1. */
  function IndexOfByte(a: seq<u8>, x: u8, from: nat): (r: int)
    ensures r == -1 || (from <= r < |a| && a[r] == x)
    decreases |a| - from
  {
    if from >= |a| then -1
    else if a[from] == x then from
    else IndexOfByte(a, x, from + 1)
  }

  /** `indexOf` returns the first offset at or after `from` that holds `x`: no earlier one
      does, and -1 means none does. */
  lemma {:induction false} IndexOfByteFirst(a: seq<u8>, x: u8, from: nat)
    ensures forall k :: from <= k < |a| && a[k] == x ==> 0 <= IndexOfByte(a, x, from) <= k
    decreases |a| - from
  {
    if from < |a| && a[from] != x {
      IndexOfByteFirst(a, x, from + 1);
    }
  }

  /** Two buffers that hold `x` at the same places from `from` on give the same `indexOf`. */
  lemma {:induction false} IndexOfByteAgree(a: seq<u8>, b: seq<u8>, x: u8, from: nat)
    requires |a| == |b|
    requires forall k :: from <= k < |a| ==> (a[k] == x <==> b[k] == x)
    ensures IndexOfByte(a, x, from) == IndexOfByte(b, x, from)
    decreases |a| - from
  {
    if from < |a| && a[from] != x {
      IndexOfByteAgree(a, b, x, from + 1);
    }
  }
}
