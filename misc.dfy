/**
 * The string and array helpers of src/misc.ts: `capWords`, `cap` and `chunk`.
 * Characters are treated as ASCII: only `a`-`z` and `A`-`Z` change case.
 */
module Misc {
  import opened Wrappers

  predicate IsLower(c: char) { 'a' <= c <= 'z' }

  predicate IsUpper(c: char) { 'A' <= c <= 'Z' }

  /** The regular-expression word characters `[A-Za-z0-9_]`. */
  predicate IsWordChar(c: char) { IsLower(c) || IsUpper(c) || '0' <= c <= '9' || c == '_' }

  function ToUpper(c: char): (u: char)
    ensures IsLower(c) ==> IsUpper(u) && u as int == c as int - 32
    ensures !IsLower(c) ==> u == c
  {
    if IsLower(c) then (c as int - 32) as char else c
  }

  function ToLower(c: char): (l: char)
    ensures IsUpper(c) ==> IsLower(l) && l as int == c as int + 32
    ensures !IsUpper(c) ==> l == c
  {
    if IsUpper(c) then (c as int + 32) as char else c
  }

  function LowerAll(s: string): (r: string)
    ensures |r| == |s|
    ensures forall i :: 0 <= i < |s| ==> r[i] == ToLower(s[i])
  {
    if s == [] then [] else [ToLower(s[0])] + LowerAll(s[1..])
  }

  /** A word boundary `\b` stands before position `i` of `s`. */
  predicate AtWordStart(s: string, i: nat)
    requires i < |s|
  {
    i == 0 || !IsWordChar(s[i - 1])
  }

  /**
   * `capWords(str)`: the global replacement of `\b[a-z]` by its upper case,
   * scanning left to right; `afterWord` says whether the previous character
   * was a word character.
   */
  function CapWordsFrom(s: string, afterWord: bool): (r: string)
    ensures |r| == |s|
  {
    if s == [] then []
    else [if !afterWord && IsLower(s[0]) then ToUpper(s[0]) else s[0]] + CapWordsFrom(s[1..], IsWordChar(s[0]))
  }

  function CapWords(s: string): (r: string)
    ensures |r| == |s|
  {
    CapWordsFrom(s, false)
  }

  /** Exactly the lower-case letters at a word start are upper-cased; every other character is kept. */
  lemma {:induction false} CapWordsAt(s: string, i: nat)
    requires i < |s|
    ensures CapWords(s)[i] == if IsLower(s[i]) && AtWordStart(s, i) then ToUpper(s[i]) else s[i]
  {
    CapWordsFromAt(s, false, i);
  }

  lemma {:induction false} CapWordsFromAt(s: string, afterWord: bool, i: nat)
    requires i < |s|
    ensures CapWordsFrom(s, afterWord)[i]
         == if IsLower(s[i]) && (if i == 0 then !afterWord else !IsWordChar(s[i - 1])) then ToUpper(s[i]) else s[i]
  {
    if i > 0 {
      CapWordsFromAt(s[1..], IsWordChar(s[0]), i - 1);
    }
  }

  /** Capitalising words twice is the same as once: upper-casing keeps every word boundary where it was. */
  lemma CapWordsIdempotent(s: string)
    ensures CapWords(CapWords(s)) == CapWords(s)
  {
    var once := CapWords(s);
    forall i | 0 <= i < |s|
      ensures CapWords(once)[i] == once[i]
    {
      CapWordsAt(s, i);
      CapWordsAt(once, i);
      if i > 0 {
        CapWordsAt(s, i - 1);
      }
    }
  }

  /**
   * `cap(str, lowerRest)`: the first character upper-cased, the rest kept or
   * lower-cased. On an empty string `first` is undefined and the call throws.
   */
  function Cap(s: string, lowerRest: bool): (r: Result<string, string>)
    ensures r.Failure? <==> s == []
    ensures r.Success? ==> |r.value| == |s| && r.value[0] == ToUpper(s[0]) && !IsLower(r.value[0])
    ensures r.Success? ==> forall i :: 1 <= i < |s| ==>
              && ToLower(r.value[i]) == ToLower(s[i])
              && (lowerRest ==> r.value[i] == ToLower(s[i]) && !IsUpper(r.value[i]))
              && (!lowerRest ==> r.value[i] == s[i])
  {
    if s == [] then Failure("TypeError: Cannot read properties of undefined (reading 'toUpperCase')")
    else Success([ToUpper(s[0])] + (if lowerRest then LowerAll(s[1..]) else s[1..]))
  }

  /** Capitalising again with the same flag changes nothing. */
  lemma CapIdempotent(s: string, lowerRest: bool)
    requires s != []
    ensures Cap(Cap(s, lowerRest).value, lowerRest) == Cap(s, lowerRest)
  {
    var once := Cap(s, lowerRest).value;
    if lowerRest {
      assert LowerAll(once[1..]) == once[1..];
    } else {
      assert once[1..] == s[1..];
    }
  }

  /** `Math.ceil(n / k)` for a positive `k`, counted by repeated subtraction. */
  function CeilDiv(n: nat, k: nat): nat
    requires k > 0
  {
    if n == 0 then 0 else if n <= k then 1 else 1 + CeilDiv(n - k, k)
  }

  /** `CeilDiv` is the ceiling of the quotient: the least `c` with `n <= c * k`. */
  lemma {:induction false} CeilDivIsCeiling(n: nat, k: nat)
    requires k > 0
    ensures n <= CeilDiv(n, k) * k
    ensures n > 0 ==> (CeilDiv(n, k) - 1) * k < n
  {
    if n > k {
      CeilDivIsCeiling(n - k, k);
      var c := CeilDiv(n - k, k);
      assert (c + 1) * k == c * k + k;
      assert c * k == (c - 1) * k + k;
    }
  }

  /** `Array.prototype.slice(begin, end)` for non-negative bounds: both are clamped to the length. */
  function Slice<T>(a: seq<T>, begin: nat, end: nat): (r: seq<T>)
    ensures |r| <= |a|
  {
    var b := if begin < |a| then begin else |a|;
    var e := if end < b then b else if end < |a| then end else |a|;
    a[b..e]
  }

  /**
   * `chunk(arr, size)`: `ceil(length / size)` slices of `size` elements.
   * A negative size gives a zero length, hence no chunks; a zero size with a
   * non-empty array asks for an array of length `ceil(n / 0) = Infinity`.
   */
  function Chunk<T>(arr: seq<T>, size: int): (r: seq<seq<T>>)
    requires size != 0 || arr == []
    ensures size <= 0 ==> r == []
    ensures size > 0 ==> |r| == CeilDiv(|arr|, size)
  {
    if size <= 0 then []
    else seq(CeilDiv(|arr|, size), i requires 0 <= i => ChunkAt(arr, size, i))
  }

  /** The `i`-th chunk: `arr.slice(i * size, i * size + size)`. */
  function ChunkAt<T>(arr: seq<T>, size: nat, i: nat): seq<T>
  {
    Slice(arr, i * size, i * size + size)
  }

  function Flatten<T>(chunks: seq<seq<T>>): seq<T>
  {
    if chunks == [] then [] else chunks[0] + Flatten(chunks[1..])
  }

  /** Peeling the first chunk off: the rest is the chunking of what follows it. */
  lemma ChunkUnfold<T>(arr: seq<T>, size: nat)
    requires size > 0 && arr != []
    ensures Chunk(arr, size) == [Slice(arr, 0, size)] + Chunk(Slice(arr, size, |arr|), size)
  {
    var rest := Slice(arr, size, |arr|);
    ChunkCount(arr, size);
    ChunkTail(arr, size);
    ChunkAtNext(arr, size, 0);
    assert Chunk(arr, size) == [Chunk(arr, size)[0]] + Chunk(arr, size)[1..];
  }

  lemma ChunkCount<T>(arr: seq<T>, size: nat)
    requires size > 0 && arr != []
    ensures |Chunk(arr, size)| == |Chunk(Slice(arr, size, |arr|), size)| + 1
  {
  }

  lemma ChunkTail<T>(arr: seq<T>, size: nat)
    requires size > 0 && arr != []
    ensures Chunk(arr, size)[1..] == Chunk(Slice(arr, size, |arr|), size)
  {
    var restChunks := Chunk(Slice(arr, size, |arr|), size);
    ChunkCount(arr, size);
    forall i | 0 <= i < |restChunks|
      ensures Chunk(arr, size)[1..][i] == restChunks[i]
    {
      ChunkAtNext(arr, size, i);
    }
  }

  lemma ChunkAtNext<T>(arr: seq<T>, size: nat, i: nat)
    requires size > 0
    ensures ChunkAt(arr, size, 0) == Slice(arr, 0, size)
    ensures ChunkAt(arr, size, i + 1) == ChunkAt(Slice(arr, size, |arr|), size, i)
  {
    MulShift(i, size);
    var start := i * size;
    assert ChunkAt(arr, size, i + 1) == Slice(arr, start + size, start + size + size);
    assert ChunkAt(Slice(arr, size, |arr|), size, i) == Slice(Slice(arr, size, |arr|), start, start + size);
    if size <= |arr| {
      assert Slice(arr, size, |arr|) == arr[size..];
      SliceShift(arr, size, start, start + size);
    } else {
      assert Slice(arr, size, |arr|) == [];
    }
  }

  lemma MulShift(i: nat, size: nat)
    ensures (i + 1) * size == i * size + size
    ensures 0 * size == 0
  {
  }

  /** Slicing after the first `k` elements is slicing the whole array `k` positions further on. */
  lemma SliceShift<T>(arr: seq<T>, k: nat, begin: nat, end: nat)
    requires k <= |arr|
    ensures Slice(arr[k..], begin, end) == Slice(arr, begin + k, end + k)
  {
  }

  /** Concatenating the chunks gives back the array. */
  lemma {:induction false} ChunkFlatten<T>(arr: seq<T>, size: nat)
    requires size > 0
    ensures Flatten(Chunk(arr, size)) == arr
    decreases |arr|
  {
    if arr != [] {
      var rest := Slice(arr, size, |arr|);
      ChunkUnfold(arr, size);
      ChunkFlatten(rest, size);
      FlattenCons([Slice(arr, 0, size)] + Chunk(rest, size));
      SliceSplit(arr, size);
    }
  }

  lemma FlattenCons<T>(chunks: seq<seq<T>>)
    requires chunks != []
    ensures Flatten(chunks) == chunks[0] + Flatten(chunks[1..])
  {
  }

  /** The first `k` elements and the rest make up the array. */
  lemma SliceSplit<T>(arr: seq<T>, k: nat)
    ensures Slice(arr, 0, k) + Slice(arr, k, |arr|) == arr
  {
  }

  /** Every chunk but the last holds exactly `size` elements; the last holds between 1 and `size`. */
  lemma {:induction false} ChunkSizes<T>(arr: seq<T>, size: nat, i: nat)
    requires size > 0 && i < |Chunk(arr, size)|
    ensures i < |Chunk(arr, size)| - 1 ==> |Chunk(arr, size)[i]| == size
    ensures i == |Chunk(arr, size)| - 1 ==> 1 <= |Chunk(arr, size)[i]| <= size
    decreases |arr|
  {
    var chunks := Chunk(arr, size);
    assert arr != [];
    var rest := Slice(arr, size, |arr|);
    var restChunks := Chunk(rest, size);
    ChunkUnfold(arr, size);
    assert |chunks| == |restChunks| + 1;
    if i > 0 {
      assert chunks[i] == restChunks[i - 1];
      ChunkSizes(rest, size, i - 1);
    } else if |arr| > size {
      ChunkCount(rest, size);
    } else {
      assert rest == [];
      assert |restChunks| == 0;
    }
  }
}
