/**
 * `FglTFBuffers`: the store of raw payloads recovered from the embedded binary chunk, external
 * image files and external buffer files, with one index table per source, and the typed reads
 * that pull elements out of those payloads for a glTF document.
 */
module GltfBuffers {
  import opened Optional
  import opened Ints
  import opened GltfDocument
  import opened TypedRead

  /** The three payload sources (`EglTFBufferSource::Type`, without its `Max` sentinel). */
  datatype Source = Binaries | Images | Buffers

  /** One stored payload (`FglTFBufferData`): its bytes and the file they came from ("" for none). */
  datatype BufferData = BufferData(data: seq<bv8>, filePath: string)

  /** What a typed read hands back: its boolean result and the values of `OutBufferSegment` and `OutFilePath` afterwards. */
  datatype Outcome = Outcome(ok: bool, segment: seq<Elem>, filePath: string)

  /** The call a resolver forwards to `Get`: the source, the logical index and the start, count and stride arguments. */
  datatype Target = Target(source: Source, index: int32, start: int, count: int, stride: int)

  class Buffers {
    /** Whether buffers live in the embedded binary chunk rather than in external files. */
    var constructByBinary: bool
    /** The index tables, one per source: logical document index to slot. */
    var binaryIndex: map<uint32, uint32>
    var imageIndex: map<uint32, uint32>
    var bufferIndex: map<uint32, uint32>
    /** The slots; a null shared pointer is `None`. */
    var datas: seq<Option<BufferData>>

    /** The index table of `source`. */
    function IndexToIndex(source: Source): map<uint32, uint32>
      reads this
    {
      match source
      case Binaries => binaryIndex
      case Images => imageIndex
      case Buffers => bufferIndex
    }

    /** Every mapped slot exists. */
    ghost predicate Valid()
      reads this
    {
      forall source: Source, key :: key in IndexToIndex(source) ==> IndexToIndex(source)[key] as int < |datas|
    }

    /** A store in the given mode, with no payloads and empty tables. */
    constructor (constructByBinary: bool := false)
      ensures this.constructByBinary == constructByBinary
      ensures forall source: Source :: IndexToIndex(source) == map[]
      ensures datas == []
      ensures Valid()
    {
      this.constructByBinary := constructByBinary;
      binaryIndex, imageIndex, bufferIndex := map[], map[], map[];
      datas := [];
    }

    /**
     * Appends one slot and points `key` of `source` at it, replacing any earlier mapping. A direct
     * setter for the tables and slots; how payloads are obtained is not part of this model.
     */
    method Install(source: Source, key: uint32, slot: Option<BufferData>)
      requires Valid()
      requires |datas| < 0x1_0000_0000
      modifies this
      ensures Valid()
      ensures constructByBinary == old(constructByBinary)
      ensures datas == old(datas) + [slot]
      ensures IndexToIndex(source) == old(IndexToIndex(source))[key := old(|datas|) as uint32]
      ensures forall s: Source :: s != source ==> IndexToIndex(s) == old(IndexToIndex(s))
      ensures forall index: int32, path: string :: AsUint32(index) == key ==>
                GetData(source, index, path)
                == if slot.Some? then slot.value else BufferData([], path)
      ensures forall s: Source, index: int32, path: string :: s != source || AsUint32(index) != key ==>
                GetData(s, index, path) == old(GetData(s, index, path))
    {
      var slotIndex := |datas| as uint32;
      datas := datas + [slot];
      match source {
        case Binaries => binaryIndex := binaryIndex[key := slotIndex];
        case Images => imageIndex := imageIndex[key := slotIndex];
        case Buffers => bufferIndex := bufferIndex[key := slotIndex];
      }
      forall s: Source, k | k in IndexToIndex(s)
        ensures IndexToIndex(s)[k] as int < |datas|
      {
        if s != source || k != key {
          assert k in old(IndexToIndex(s));
        }
      }
    }

    /**
     * The payload `index` names in `source`, with the value `OutFilePath` has afterwards. An index
     * that is not in the table, maps past the slots, or maps to a null slot yields the empty payload
     * and leaves the path untouched; otherwise the slot's bytes and file path.
     */
    function GetData(source: Source, index: int32, outFilePath: string): (r: BufferData)
      reads this
      ensures var key := AsUint32(index);
              || key !in IndexToIndex(source)
              || IndexToIndex(source)[key] as int >= |datas|
              || datas[IndexToIndex(source)[key]].None?
              ==> r == BufferData([], outFilePath)
      ensures var key := AsUint32(index);
              && key in IndexToIndex(source)
              && IndexToIndex(source)[key] as int < |datas|
              && datas[IndexToIndex(source)[key]].Some?
              ==> r == datas[IndexToIndex(source)[key]].value
      ensures r.data != [] || r.filePath != outFilePath ==>
              var key := AsUint32(index);
              && key in IndexToIndex(source)
              && IndexToIndex(source)[key] as int < |datas|
              && datas[IndexToIndex(source)[key]] == Some(r)
    {
      var table := IndexToIndex(source);
      var key := AsUint32(index);
      if key !in table then BufferData([], outFilePath)
      else
        var dataIndex := table[key];
        if dataIndex as int >= |datas| then BufferData([], outFilePath)
        else
          match datas[dataIndex]
          case None => BufferData([], outFilePath)
          case Some(d) => d
    }

    /**
     * In a valid store no mapped index points past the slots, so a lookup comes back empty exactly
     * when its index is unmapped or its slot is null, or when the slot itself holds no bytes.
     */
    lemma ValidLookup(source: Source, index: int32, outFilePath: string)
      requires Valid()
      ensures var key := AsUint32(index);
              GetData(source, index, outFilePath) == BufferData([], outFilePath)
              <==> || key !in IndexToIndex(source)
                   || datas[IndexToIndex(source)[key]].None?
                   || datas[IndexToIndex(source)[key]] == Some(BufferData([], outFilePath))
    {
    }

    /**
     * What `Get` returns. A stride narrower than the element or a negative start fails before the
     * lookup; after the lookup the path is that of the slot found, the read is `Read` on its
     * payload, and a failed read leaves the output as it was.
     */
    function ReadOutcome(source: Source, index: int32, out: seq<Elem>, outFilePath: string,
                         w: nat, start: int, count: int, stride: int): (r: Outcome)
      reads this
      requires w >= 1
      ensures EffectiveStride(stride, w) < w || start < 0 ==> r == Outcome(false, out, outFilePath)
      ensures EffectiveStride(stride, w) >= w && start >= 0 ==>
                r.filePath == GetData(source, index, outFilePath).filePath
      ensures !r.ok ==> r.segment == out
      ensures r.ok ==> Some(r.segment) == Read(GetData(source, index, outFilePath).data, start, count, stride, w)
      ensures Read(GetData(source, index, outFilePath).data, start, count, stride, w).Some? ==> r.ok
    {
      if EffectiveStride(stride, w) < w || start < 0 then Outcome(false, out, outFilePath)
      else
        var fetched := GetData(source, index, outFilePath);
        match Read(fetched.data, start, count, stride, w)
        case None => Outcome(false, out, fetched.filePath)
        case Some(elems) => Outcome(true, elems, fetched.filePath)
    }

    /**
     * The copy step of `Get`: the output resized to `count` elements, then filled by one block copy
     * when the stride equals the element size, or element by element from strided offsets.
     */
    static method CopyElements(data: seq<bv8>, start: nat, count: nat, stride: nat, w: nat) returns (elems: seq<Elem>)
      requires w <= stride
      requires start + count * stride <= |data|
      ensures elems == Strided(data, start, count, stride, w)
    {
      var output := new Elem[count];
      ghost var expected := Strided(data, start, count, stride, w);
      assert |expected| == count by { StridedLength(data, start, count, stride, w); }
      if stride == w {
        assert count * w == count * stride;
        var block := data[start .. start + count * w];
        var chunks := Chunks(block, count, w);
        assert chunks == expected by { ContiguousIsStrided(data, start, count, w); }
        forall i | 0 <= i < count {
          output[i] := chunks[i];
        }
      } else {
        for i := 0 to count
          invariant forall j :: 0 <= j < i ==> output[j] == expected[j]
        {
          StridedAt(data, start, count, stride, w, i);
          var offset := ElementOffset(start, i, stride);
          output[i] := data[offset .. offset + w];
        }
      }
      assert output[..] == expected;
      elems := output[..];
    }

    /**
     * The strided typed read. The output is resized to the element count and filled either by one
     * block copy (stride equal to the element size) or element by element.
     */
    method Get(source: Source, index: int32, out: seq<Elem>, outFilePath: string,
               w: nat, start: int := 0, count: int := 0, stride: int := 0)
      returns (ok: bool, segment: seq<Elem>, filePath: string)
      requires w >= 1
      ensures Outcome(ok, segment, filePath) == ReadOutcome(source, index, out, outFilePath, w, start, count, stride)
      ensures ok ==> forall i :: 0 <= i < |segment| ==> |segment[i]| == w
    {
      var s := if stride == 0 then w else stride;
      // The element-size guard, compared as signed integers (see NegativeStrideCounterexample).
      if w > s {
        return false, out, outFilePath;
      }
      if start < 0 {
        return false, out, outFilePath;
      }
      var fetched := GetData(source, index, outFilePath);
      var data := fetched.data;
      filePath := fetched.filePath;
      if |data| <= 0 {
        return false, out, filePath;
      }
      var n := if count <= 0 then |data| else count;
      if |data| < start + n * s {
        return false, out, filePath;
      }
      assert Fits(|data|, start, count, stride, w);
      segment := CopyElements(data, start, n, s, w);
      assert Read(data, start, count, stride, w) == Some(segment);
      ok := true;
    }

    /**
     * The read a bufferView reference turns into. It fails for a missing document, a bufferView
     * index outside the list, a null bufferView or one without a buffer; otherwise it reads the
     * view's buffer from the source the store's mode selects, starting at the view's offset plus
     * `offset`, with `count` elements (the view's byte length when `count` is 0) and the view's stride.
     */
    function BufferViewTarget(doc: Option<Document>, viewIndex: int32, offset: int, count: int): (r: Option<Target>)
      reads this
      ensures r.None? <==>
                || doc.None?
                || viewIndex < 0
                || viewIndex as int >= |doc.value.bufferViews|
                || doc.value.bufferViews[viewIndex].None?
                || doc.value.bufferViews[viewIndex].value.buffer.None?
      ensures r.Some? ==> r.value.source != Images && (r.value.source == Binaries <==> constructByBinary)
      ensures r.Some? ==>
                var view := doc.value.bufferViews[viewIndex].value;
                && r.value.index == view.buffer.value
                && r.value.start == view.byteOffset + offset
                && r.value.count == (if count != 0 then count else view.byteLength)
                && r.value.stride == view.byteStride
    {
      if doc.None? then None
      else if viewIndex < 0 || viewIndex as int >= |doc.value.bufferViews| then None
      else
        match doc.value.bufferViews[viewIndex]
        case None => None
        case Some(view) =>
          match view.buffer
          case None => None
          case Some(buffer) =>
            var c := if count != 0 then count else view.byteLength;
            Some(Target(if constructByBinary then Binaries else Buffers, buffer, view.byteOffset + offset, c, view.byteStride))
    }

    /**
     * The read an image reference turns into. It fails for a missing document, an image index
     * outside the list or a null image. An image with a `uri` is read whole from the image source
     * under its own index; one without a `uri` is read through its bufferView, and fails without one.
     */
    function ImageTarget(doc: Option<Document>, imageIndex: int32): (r: Option<Target>)
      reads this
      ensures || doc.None?
              || imageIndex < 0
              || imageIndex as int >= |doc.value.images|
              || doc.value.images[imageIndex].None?
              ==> r.None?
      ensures r.Some? && r.value.source == Images ==> r.value == Target(Images, imageIndex, 0, 0, 0)
      ensures doc.Some? && 0 <= imageIndex as int < |doc.value.images| && doc.value.images[imageIndex].Some?
              && doc.value.images[imageIndex].value.uri != [] ==>
                r == Some(Target(Images, imageIndex, 0, 0, 0))
      ensures r.Some? ==>
                var image := doc.value.images[imageIndex].value;
                (image.uri != [] <==> r.value.source == Images)
      ensures doc.Some? && 0 <= imageIndex as int < |doc.value.images| && doc.value.images[imageIndex].Some?
              && doc.value.images[imageIndex].value.uri == [] ==>
                r == match doc.value.images[imageIndex].value.bufferView
                     case None => None
                     case Some(view) => BufferViewTarget(doc, view, 0, 0)
    {
      if doc.None? then None
      else if imageIndex < 0 || imageIndex as int >= |doc.value.images| then None
      else
        match doc.value.images[imageIndex]
        case None => None
        case Some(image) =>
          if image.uri == [] then
            match image.bufferView
            case None => None
            case Some(view) => BufferViewTarget(doc, view, 0, 0)
          else Some(Target(Images, imageIndex, 0, 0, 0))
    }

    /** What a resolver returns for a target: failure with nothing touched, or the outcome of `Get`. */
    function TargetOutcome(target: Option<Target>, out: seq<Elem>, outFilePath: string, w: nat): Outcome
      reads this
      requires w >= 1
    {
      match target
      case None => Outcome(false, out, outFilePath)
      case Some(t) => ReadOutcome(t.source, t.index, out, outFilePath, w, t.start, t.count, t.stride)
    }

    /** Reads the elements a bufferView describes, from the buffer source the store's mode selects. */
    method GetBufferViewData(doc: Option<Document>, viewIndex: int32, out: seq<Elem>, outFilePath: string,
                             w: nat, offset: int := 0, count: int := 0)
      returns (ok: bool, segment: seq<Elem>, filePath: string)
      requires w >= 1
      ensures Outcome(ok, segment, filePath) == TargetOutcome(BufferViewTarget(doc, viewIndex, offset, count), out, outFilePath, w)
    {
      if doc.None? {
        return false, out, outFilePath;
      }
      if viewIndex < 0 || viewIndex as int >= |doc.value.bufferViews| {
        return false, out, outFilePath;
      }
      var view := doc.value.bufferViews[viewIndex];
      if view.None? || view.value.buffer.None? {
        return false, out, outFilePath;
      }
      var bufferIndex := view.value.buffer.value;
      var c := if count != 0 then count else view.value.byteLength;
      if constructByBinary {
        ok, segment, filePath := Get(Binaries, bufferIndex, out, outFilePath, w, view.value.byteOffset + offset, c, view.value.byteStride);
      } else {
        ok, segment, filePath := Get(Buffers, bufferIndex, out, outFilePath, w, view.value.byteOffset + offset, c, view.value.byteStride);
      }
    }

    /** Reads an image's bytes: from its external file when it has a `uri`, else through its bufferView. */
    method GetImageData(doc: Option<Document>, imageIndex: int32, out: seq<Elem>, outFilePath: string, w: nat)
      returns (ok: bool, segment: seq<Elem>, filePath: string)
      requires w >= 1
      ensures Outcome(ok, segment, filePath) == TargetOutcome(ImageTarget(doc, imageIndex), out, outFilePath, w)
    {
      if doc.None? {
        return false, out, outFilePath;
      }
      if imageIndex < 0 || imageIndex as int >= |doc.value.images| {
        return false, out, outFilePath;
      }
      var image := doc.value.images[imageIndex];
      if image.None? {
        return false, out, outFilePath;
      }
      if image.value.uri == [] {
        if image.value.bufferView.Some? {
          ok, segment, filePath := GetBufferViewData(doc, image.value.bufferView.value, out, outFilePath, w);
          return;
        }
      } else {
        ok, segment, filePath := Get(Images, imageIndex, out, outFilePath, w);
        return;
      }
      return false, out, outFilePath;
    }
  }

  /**
   * A successful bufferView read holds `count` elements, or the view's byte length of them when
   * `count` is 0, provided that number is positive.
   */
  lemma BufferViewReadLength(b: Buffers, doc: Document, viewIndex: int32, out: seq<Elem>, outFilePath: string,
                             w: nat, offset: int, count: int)
    requires w >= 1
    requires 0 <= viewIndex as int < |doc.bufferViews| && doc.bufferViews[viewIndex].Some?
    requires (if count != 0 then count else doc.bufferViews[viewIndex].value.byteLength) > 0
    ensures var r := b.TargetOutcome(b.BufferViewTarget(Some(doc), viewIndex, offset, count), out, outFilePath, w);
            r.ok ==> |r.segment| == if count != 0 then count else doc.bufferViews[viewIndex].value.byteLength
  {
  }

  /**
   * With no count given and elements wider than a byte, a successful bufferView read takes
   * `byteLength` elements, so its last element ends past `start + byteLength`, where `start` is
   * the view's offset plus `offset`; with `offset` 0 or more that is past the end of the view.
   */
  lemma WideDefaultViewReadPassesViewEnd(b: Buffers, doc: Document, viewIndex: int32, out: seq<Elem>,
                                         outFilePath: string, w: nat, offset: int)
    requires w >= 2
    requires 0 <= viewIndex as int < |doc.bufferViews| && doc.bufferViews[viewIndex].Some?
    requires doc.bufferViews[viewIndex].value.byteLength > 0
    ensures var view := doc.bufferViews[viewIndex].value;
            var r := b.TargetOutcome(b.BufferViewTarget(Some(doc), viewIndex, offset, 0), out, outFilePath, w);
            r.ok ==>
              && |r.segment| == view.byteLength
              && ElementOffset(view.byteOffset + offset, view.byteLength - 1, EffectiveStride(view.byteStride, w)) + w
                 > view.byteOffset + offset + view.byteLength
              && (offset >= 0 ==>
                    ElementOffset(view.byteOffset + offset, view.byteLength - 1, EffectiveStride(view.byteStride, w)) + w
                    > view.byteOffset + view.byteLength)
  {
    var view := doc.bufferViews[viewIndex].value;
    var r := b.TargetOutcome(b.BufferViewTarget(Some(doc), viewIndex, offset, 0), out, outFilePath, w);
    if r.ok {
      var s := EffectiveStride(view.byteStride, w);
      var n := view.byteLength;
      assert s >= w;
      assert (n - 1) * s >= (n - 1) * w by { MulLeftMono(n - 1, w, s); }
      assert (n - 1) * w + w >= 2 * n by { MulLeftMono(n, 2, w); }
    }
  }

  /**
   * A client: an embedded-binary store holding one 24-byte chunk with the bytes 0 to 23, and a
   * tightly packed bufferView of byte length 12 at byte 4, read as 12-byte elements.
   */
  method EmbeddedViewScenario()
  {
    var chunk := seq(24, i requires 0 <= i < 24 => i as bv8);
    var b := new Buffers(true);
    b.Install(Binaries, 0, Some(BufferData(chunk, "")));
    var doc := Some(Document([], [Some(BufferView(Some(0), 4, 12, 0))]));
    var ok, segment, path := b.GetBufferViewData(doc, 0, [], "", 12);
    assert !ok;  // the byte length 12 is taken as an element count: 4 + 12 * 12 bytes do not fit
    ok, segment, path := b.GetBufferViewData(doc, 0, [], "", 12, 0, 1);
    assert ok && segment == [chunk[4 .. 16]] && path == "";
  }
}
