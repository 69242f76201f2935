/**
 * The typed read at the heart of `FglTFBuffers::Get`: `count` elements of `w` bytes each, taken
 * out of a byte payload from `start` on, `stride` bytes apart. The element type of the C++
 * template is reduced to its byte width `w` (its `sizeof`), and an element to the `w` bytes that
 * are copied into it. Offsets and counts are mathematical integers.
 */
module TypedRead {
  import opened Optional
  import opened Ints

  /** One element of the output array: the `w` bytes copied into it. */
  type Elem = seq<bv8>

  /** The stride Get works with: 0 stands for the element size. */
  function EffectiveStride(stride: int, w: nat): int
  {
    if stride == 0 then w else stride
  }

  /** The count Get works with: a count of 0 or less becomes the payload's byte length. */
  function ResolvedCount(count: int, byteLength: nat): int
  {
    if count <= 0 then byteLength else count
  }

  /** The payload offset element `i` is copied from. */
  function ElementOffset(start: int, i: int, stride: int): int
  {
    start + i * stride
  }

  /** Reference definition of a strided read: one element at `start`, then the rest from `start + stride` on. */
  function Strided(data: seq<bv8>, start: nat, count: nat, stride: nat, w: nat): seq<Elem>
    requires w <= stride
    requires start + count * stride <= |data|
    decreases count
  {
    if count == 0 then []
    else
      MulPred(count, stride);
      [data[start .. start + w]] + Strided(data, start + stride, count - 1, stride, w)
  }

  lemma {:induction false} StridedLength(data: seq<bv8>, start: nat, count: nat, stride: nat, w: nat)
    requires w <= stride
    requires start + count * stride <= |data|
    ensures |Strided(data, start, count, stride, w)| == count
    decreases count
  {
    if count > 0 {
      MulPred(count, stride);
      StridedLength(data, start + stride, count - 1, stride, w);
    }
  }

  /** Element `i` of a strided read is the `w`-byte slice at `start + i * stride`, inside the payload. */
  lemma {:induction false} StridedAt(data: seq<bv8>, start: nat, count: nat, stride: nat, w: nat, i: nat)
    requires w <= stride
    requires start + count * stride <= |data|
    requires i < count
    ensures |Strided(data, start, count, stride, w)| == count
    ensures start <= ElementOffset(start, i, stride)
    ensures ElementOffset(start, i, stride) + w <= |data|
    ensures Strided(data, start, count, stride, w)[i]
         == data[ElementOffset(start, i, stride) .. ElementOffset(start, i, stride) + w]
    decreases count
  {
    StridedLength(data, start, count, stride, w);
    MulLeftMono(i, 0, stride);
    MulPred(count, stride);
    var rest := Strided(data, start + stride, count - 1, stride, w);
    assert Strided(data, start, count, stride, w) == [data[start .. start + w]] + rest;
    if i == 0 {
      MulLeftMono(count - 1, 0, stride);
    } else {
      StridedAt(data, start + stride, count - 1, stride, w, i - 1);
      MulPred(i, stride);
      assert ElementOffset(start + stride, i - 1, stride) == ElementOffset(start, i, stride);
    }
  }

  /** The contiguous branch: one block of `count * w` bytes reinterpreted as `count` elements of `w` bytes. */
  function Chunks(block: seq<bv8>, count: nat, w: nat): seq<Elem>
    requires |block| == count * w
    decreases count
  {
    if count == 0 then []
    else
      MulPred(count, w);
      [block[..w]] + Chunks(block[w..], count - 1, w)
  }

  /** When the stride equals the element size, the single block copy and the strided copy agree. */
  lemma {:induction false} ContiguousIsStrided(data: seq<bv8>, start: nat, count: nat, w: nat)
    requires start + count * w <= |data|
    ensures Chunks(data[start .. start + count * w], count, w) == Strided(data, start, count, w, w)
    decreases count
  {
    if count > 0 {
      var block := data[start .. start + count * w];
      MulPred(count, w);
      ContiguousIsStrided(data, start + w, count - 1, w);
      assert block[..w] == data[start .. start + w];
      assert block[w..] == data[start + w .. start + w + (count - 1) * w];
    }
  }

  /** Every element of a strided read, in closed form. */
  lemma StridedClosedForm(data: seq<bv8>, start: nat, count: nat, stride: nat, w: nat)
    requires w <= stride
    requires start + count * stride <= |data|
    ensures |Strided(data, start, count, stride, w)| == count
    ensures forall i :: 0 <= i < count ==>
              && ElementOffset(start, i, stride) + w <= |data|
              && Strided(data, start, count, stride, w)[i]
                 == data[ElementOffset(start, i, stride) .. ElementOffset(start, i, stride) + w]
  {
    StridedLength(data, start, count, stride, w);
    forall i | 0 <= i < count
      ensures ElementOffset(start, i, stride) + w <= |data|
      ensures Strided(data, start, count, stride, w)[i]
              == data[ElementOffset(start, i, stride) .. ElementOffset(start, i, stride) + w]
    {
      StridedAt(data, start, count, stride, w, i);
    }
  }

  /** Whether a request fits: a wide enough stride, a start inside, and `count` strides within the payload. */
  predicate Fits(len: nat, start: int, count: int, stride: int, w: nat)
  {
    && EffectiveStride(stride, w) >= w
    && start >= 0
    && len > 0
    && start + ResolvedCount(count, len) * EffectiveStride(stride, w) <= len
  }

  /**
   * The typed read of `Get` once the payload is in hand. It fails when the stride is smaller than
   * the element, the start is negative, the payload is empty, or the request runs past the end;
   * otherwise it yields `ResolvedCount` elements, element `i` being the `w` bytes at
   * `start + i * stride`.
   */
  function Read(data: seq<bv8>, start: int, count: int, stride: int, w: nat): (r: Option<seq<Elem>>)
    requires w >= 1
    ensures EffectiveStride(stride, w) < w ==> r == None
    ensures start < 0 ==> r == None
    ensures |data| == 0 ==> r == None
    ensures |data| < start + ResolvedCount(count, |data|) * EffectiveStride(stride, w) ==> r == None
    ensures Fits(|data|, start, count, stride, w) ==> r.Some?
    ensures r.Some? ==> |r.value| == ResolvedCount(count, |data|)
    ensures r.Some? ==> forall i :: 0 <= i < |r.value| ==>
              && 0 <= ElementOffset(start, i, EffectiveStride(stride, w))
              && ElementOffset(start, i, EffectiveStride(stride, w)) + w <= |data|
              && r.value[i] == data[ElementOffset(start, i, EffectiveStride(stride, w))
                                    .. ElementOffset(start, i, EffectiveStride(stride, w)) + w]
  {
    if !Fits(|data|, start, count, stride, w) then None
    else
      var s, n := EffectiveStride(stride, w), ResolvedCount(count, |data|);
      StridedClosedForm(data, start, n, s, w);
      Some(Strided(data, start, n, s, w))
  }

  /** A defaulted count is a byte count: with elements wider than one byte, such a read never fits the payload. */
  lemma DefaultCountWideElementsFail(data: seq<bv8>, start: int, count: int, stride: int, w: nat)
    requires w >= 2
    requires count <= 0
    ensures Read(data, start, count, stride, w) == None
  {
    var s := EffectiveStride(stride, w);
    if s >= w && start >= 0 && |data| > 0 {
      assert |data| * s >= |data| * 2 by { MulLeftMono(|data|, 2, s); }
    }
  }

  /** With one-byte elements, tightly packed from byte 0, a defaulted count reads the whole payload. */
  lemma DefaultCountReadsWholePayload(data: seq<bv8>, count: int, stride: int)
    requires count <= 0
    requires stride == 0 || stride == 1
    requires |data| > 0
    ensures Read(data, 0, count, stride, 1) == Some(seq(|data|, i requires 0 <= i < |data| => [data[i]]))
  {
    var r := Read(data, 0, count, stride, 1);
    assert Fits(|data|, 0, count, stride, 1);
    forall i | 0 <= i < |data|
      ensures r.value[i] == [data[i]]
    {
      assert ElementOffset(0, i, 1) == i;
    }
    assert r.value == seq(|data|, i requires 0 <= i < |data| => [data[i]]);
  }

  /** `n * b` is `b` more than `(n - 1) * b`. */
  lemma MulPred(n: int, b: int)
    ensures n * b == (n - 1) * b + b
  {
  }

  lemma MulLeftMono(a: nat, b: int, c: int)
    requires b <= c
    ensures a * b <= a * c
  {
  }

  /**
   * The element-size guard as written: `sizeof(TElem) > InStride` compares an unsigned `size_t`
   * with a signed `int32`, so the stride is converted to `size_t` before the comparison.
   */
  predicate StrideRejectedAsWritten(stride: int32, w: nat)
  {
    w > AsSize(EffectiveStride(stride as int, w))
  }

  /** Every guard before the copy, as written, for a payload of `len` bytes. */
  predicate GuardsPassAsWritten(len: nat, start: int32, count: int32, stride: int32, w: nat)
  {
    && !StrideRejectedAsWritten(stride, w)
    && start >= 0
    && len > 0
    && !(len < start as int + ResolvedCount(count as int, len) * EffectiveStride(stride as int, w))
  }

  /** As written, a negative stride gets through every guard whenever the start lies inside the payload. */
  lemma NegativeStridePassesGuardsAsWritten(len: nat, start: int32, count: int32, stride: int32, w: nat)
    requires 1 <= w < 0x8000_0000_0000_0000
    requires stride < 0
    requires 0 <= start as int <= len
    requires len > 0
    ensures GuardsPassAsWritten(len, start, count, stride, w)
  {
    var n := ResolvedCount(count as int, len);
    assert n * (stride as int) < 0 by { MulLeftMono(n, stride as int, 0); }
  }

  /**
   * A witness: 4-byte elements, stride -4, two elements from byte 0 of an 8-byte payload. The
   * guards pass, and the stride the strided copy is handed as its byte count is 2^64 - 4.
   */
  lemma NegativeStrideCounterexample()
    ensures GuardsPassAsWritten(8, 0, 2, -4, 4)
    ensures AsSize(EffectiveStride(-4, 4)) == 0x1_0000_0000_0000_0000 - 4
    ensures ElementOffset(0, 1, -4) < 0
    ensures forall data: seq<bv8> :: |data| == 8 ==> Read(data, 0, 2, -4, 4) == None
  {
  }

  /**
   * The strided loop as written copies `stride` bytes into output element `i`, which starts at
   * byte `i * w` of an output of `count * w` bytes; this is where the last copy ends.
   */
  function StridedCopyEndAsWritten(count: nat, stride: nat, w: nat): int
    requires count >= 1
  {
    (count - 1) * w + stride
  }

  /** As written, a stride wider than the element makes the last copy run past the output. */
  lemma StridedCopyOverrunsAsWritten(count: nat, stride: nat, w: nat)
    requires count >= 1
    requires stride > w
    ensures StridedCopyEndAsWritten(count, stride, w) - count * w == stride - w
    ensures StridedCopyEndAsWritten(count, stride, w) > count * w
  {
  }

  /** Five tightly packed 4-byte elements do not fit a 16-byte payload, and nothing is read. */
  lemma OverlongReadExample(data: seq<bv8>)
    requires |data| == 16
    ensures Read(data, 0, 5, 4, 4) == None
    ensures Read(data, 0, 4, 4, 4).Some?
  {
  }
}
