/**
 * The byte format of a node (lib/node.js `toBuffer`, `fromBuffer`, `_sliceBuffer`):
 * a one-byte type tag followed by fixed-stride records.
 */
module NodeCodec {
  import opened Bytes
  import opened Results
  import opened Arrays
  import opened NodeSpec

  /** `Node.TYPES.INTERNAL` and `Node.TYPES.LEAF`. */
  const InternalTag: Bytes := [0x00]
  const LeafTag: Bytes := [0x01]

  /** firsts[0] ++ seconds[0] ++ firsts[1] ++ seconds[1] ++ ... for every entry of `firsts`. */
  function Records(firsts: seq<Bytes>, seconds: seq<Bytes>): (r: Bytes)
    requires |firsts| <= |seconds|
  {
    if |firsts| == 0 then [] else firsts[0] + seconds[0] + Records(firsts[1..], seconds[1..])
  }

  /**
   * `toBuffer`: a leaf writes one key ++ value record per key; an internal node
   * writes one key ++ pointer record per key, so its last pointer is not written.
   * A record whose second half is undefined makes `Buffer.concat` throw.
   */
  function Encode(node: Contents): (r: Result<Bytes>)
    ensures r.Ok? ==> |r.value| >= 1 && r.value[0] == (if node.IsLeaf() then 0x01 else 0x00)
    ensures r.Err? <==> |node.keys| > (if node.IsLeaf() then |node.values| else |node.pointers|)
    ensures r.Err? ==> r.error == TypeError
  {
    if node.IsLeaf() then
      if |node.values| < |node.keys| then Err(TypeError) else Ok(LeafTag + Records(node.keys, node.values))
    else
      if |node.pointers| < |node.keys| then Err(TypeError) else Ok(InternalTag + Records(node.keys, node.pointers))
  }

  /** `hash`: the digest of the node's bytes. */
  function Hash(sha256: Bytes -> Bytes, node: Contents): (r: Result<Bytes>)
    ensures r.Ok? <==> Encode(node).Ok?
    ensures r.Ok? ==> r.value == sha256(Encode(node).value)
  {
    var buffer :- Encode(node);
    Ok(sha256(buffer))
  }

  /**
   * The records `_sliceBuffer` reads from `pos` on: a key of `keySize` bytes, then
   * `dataSize` bytes of data, clamped at the end of the buffer like `slice`.
   */
  function SliceRecords(buffer: Bytes, pos: nat, keySize: nat, dataSize: nat): (r: (seq<Bytes>, seq<Bytes>))
    requires keySize + dataSize > 0
    ensures |r.0| == |r.1|
    decreases |buffer| - pos
  {
    if pos < |buffer| then
      var rest := SliceRecords(buffer, pos + keySize + dataSize, keySize, dataSize);
      ([Slice(buffer, pos, pos + keySize)] + rest.0,
       [Slice(buffer, pos + keySize, pos + keySize + dataSize)] + rest.1)
    else ([], [])
  }

  /**
   * `fromBuffer`: tag 0x01 decodes a leaf; tag 0x00 calls `Node._sliceNodeBuffer`,
   * which lib/node.js never defines, so it throws a TypeError; any other first
   * byte, or none, is 'Unknown node type'.
   */
  function Decode(buffer: Bytes, keySize: nat, valueSize: nat): (r: Result<Contents>)
    requires keySize + valueSize > 0
    ensures r.Ok? <==> |buffer| > 0 && buffer[0] == 0x01
    ensures r == Err(UnknownNodeType) <==> |buffer| == 0 || buffer[0] > 0x01
    ensures r.Ok? ==> r.value.IsLeaf() && |r.value.keys| == |r.value.values|
  {
    var tag := Slice(buffer, 0, 1);
    CompareZeroIffEqual(tag, LeafTag);
    CompareZeroIffEqual(tag, InternalTag);
    if Compare(tag, LeafTag) == 0 then
      var records := SliceRecords(buffer, 1, keySize, valueSize);
      Ok(Contents(records.0, records.1, []))
    else if Compare(tag, InternalTag) == 0 then Err(TypeError)
    else Err(UnknownNodeType)
  }

  predicate AllOfSize(s: seq<Bytes>, size: nat) {
    forall i :: 0 <= i < |s| ==> |s[i]| == size
  }

  /** A leaf of well-sized entries encodes to 1 + n * (keySize + valueSize) bytes. */
  lemma {:induction false} RecordsLength(keys: seq<Bytes>, values: seq<Bytes>, keySize: nat, valueSize: nat)
    requires |keys| == |values| && AllOfSize(keys, keySize) && AllOfSize(values, valueSize)
    ensures |Records(keys, values)| == |keys| * (keySize + valueSize)
  {
    if |keys| > 0 {
      RecordsLength(keys[1..], values[1..], keySize, valueSize);
      assert |keys| * (keySize + valueSize) == (keySize + valueSize) + (|keys| - 1) * (keySize + valueSize);
    }
  }

  lemma EncodedLeafLength(node: Contents, keySize: nat, valueSize: nat)
    requires node.IsLeaf() && |node.keys| == |node.values|
    requires AllOfSize(node.keys, keySize) && AllOfSize(node.values, valueSize)
    ensures Encode(node).Ok? && |Encode(node).value| == 1 + |node.keys| * (keySize + valueSize)
  {
    RecordsLength(node.keys, node.values, keySize, valueSize);
  }

  lemma {:induction false} SliceRecordsAfter(prefix: Bytes, keys: seq<Bytes>, values: seq<Bytes>, keySize: nat, valueSize: nat)
    requires keySize + valueSize > 0
    requires |keys| == |values| && AllOfSize(keys, keySize) && AllOfSize(values, valueSize)
    ensures SliceRecords(prefix + Records(keys, values), |prefix|, keySize, valueSize) == (keys, values)
    decreases |keys|
  {
    var buffer := prefix + Records(keys, values);
    if |keys| > 0 {
      var rest := Records(keys[1..], values[1..]);
      var prefix' := prefix + keys[0] + values[0];
      assert buffer == prefix' + rest;
      assert Slice(buffer, |prefix|, |prefix| + keySize) == keys[0] by {
        assert buffer[|prefix|..|prefix| + keySize] == keys[0];
      }
      assert Slice(buffer, |prefix| + keySize, |prefix| + keySize + valueSize) == values[0] by {
        assert buffer[|prefix| + keySize..|prefix| + keySize + valueSize] == values[0];
      }
      SliceRecordsAfter(prefix', keys[1..], values[1..], keySize, valueSize);
      assert [keys[0]] + keys[1..] == keys;
      assert [values[0]] + values[1..] == values;
    }
  }

  /** Decoding the bytes of a leaf of well-sized entries gives back its keys and values. */
  lemma LeafRoundTrip(node: Contents, keySize: nat, valueSize: nat)
    requires keySize + valueSize > 0
    requires node.IsLeaf() && |node.keys| == |node.values|
    requires AllOfSize(node.keys, keySize) && AllOfSize(node.values, valueSize)
    ensures Encode(node).Ok? && Decode(Encode(node).value, keySize, valueSize) == Ok(node)
  {
    SliceRecordsAfter(LeafTag, node.keys, node.values, keySize, valueSize);
  }

  lemma {:induction false} RecordsReadPrefix(firsts: seq<Bytes>, seconds: seq<Bytes>, more: seq<Bytes>)
    requires |firsts| <= |seconds|
    ensures Records(firsts, seconds) == Records(firsts, seconds + more)
  {
    if |firsts| > 0 {
      RecordsReadPrefix(firsts[1..], seconds[1..], more);
      assert (seconds + more)[1..] == seconds[1..] + more;
    }
  }

  /**
   * Two internal nodes that differ only in their last pointer encode, and so
   * hash, alike: the bytes of an internal node do not determine its children.
   */
  lemma EncodeDropsLastPointer(keys: seq<Bytes>, pointers: seq<Bytes>, last: Bytes, other: Bytes, sha256: Bytes -> Bytes)
    requires |pointers| == |keys|
    ensures var a := Contents(keys, [], pointers + [last]);
      var b := Contents(keys, [], pointers + [other]);
      && Encode(a).Ok? && Encode(a) == Encode(b) && Hash(sha256, a) == Hash(sha256, b)
  {
    RecordsReadPrefix(keys, pointers, [last]);
    RecordsReadPrefix(keys, pointers, [other]);
  }

  /** `toBuffer` builds the records front to back: one more entry adds one record at the end. */
  lemma {:induction false} RecordsSnoc(firsts: seq<Bytes>, seconds: seq<Bytes>, x: Bytes, y: Bytes)
    requires |firsts| == |seconds|
    ensures Records(firsts + [x], seconds + [y]) == Records(firsts, seconds) + x + y
  {
    if |firsts| > 0 {
      assert (firsts + [x])[1..] == firsts[1..] + [x];
      assert (seconds + [y])[1..] == seconds[1..] + [y];
      RecordsSnoc(firsts[1..], seconds[1..], x, y);
    }
  }

  /**
   * The payload length is not checked against the record size: a leaf buffer
   * holding less than one key decodes to one short key with an empty value.
   */
  lemma DecodeShortRecord(buffer: Bytes, keySize: nat, valueSize: nat)
    requires keySize + valueSize > 0
    requires 1 < |buffer| < 1 + keySize && buffer[0] == 0x01
    ensures Decode(buffer, keySize, valueSize) == Ok(Contents([buffer[1..]], [[]], []))
  {
    var tag := Slice(buffer, 0, 1);
    assert tag == LeafTag;
    CompareZeroIffEqual(tag, LeafTag);
    assert SliceRecords(buffer, 1 + keySize + valueSize, keySize, valueSize) == ([], []);
    assert Slice(buffer, 1, 1 + keySize) == buffer[1..];
    assert Slice(buffer, 1 + keySize, 1 + keySize + valueSize) == [];
    var empty: Bytes := [];
    assert [buffer[1..]] + [] == [buffer[1..]] && [empty] + [] == [empty];
  }

  /** `keys` and `values` are the records `_sliceBuffer` has pushed before reaching `pos`. */
  ghost predicate ReadUpTo(buffer: Bytes, pos: nat, keySize: nat, dataSize: nat, keys: seq<Bytes>, values: seq<Bytes>)
    requires keySize + dataSize > 0
  {
    var whole := SliceRecords(buffer, 1, keySize, dataSize);
    var rest := SliceRecords(buffer, pos, keySize, dataSize);
    keys + rest.0 == whole.0 && values + rest.1 == whole.1
  }

  lemma ReadNothing(buffer: Bytes, keySize: nat, dataSize: nat)
    requires keySize + dataSize > 0
    ensures ReadUpTo(buffer, 1, keySize, dataSize, [], [])
  {
    var whole := SliceRecords(buffer, 1, keySize, dataSize);
    assert [] + whole.0 == whole.0 && [] + whole.1 == whole.1;
  }

  /** One round of the `_sliceBuffer` loop: the record at `pos` is pushed and reading goes on at `next`. */
  lemma ReadOneMore(buffer: Bytes, pos: nat, next: nat, keySize: nat, dataSize: nat, keys: seq<Bytes>, values: seq<Bytes>)
    requires keySize + dataSize > 0 && pos < |buffer| && next == pos + keySize + dataSize
    requires ReadUpTo(buffer, pos, keySize, dataSize, keys, values)
    ensures ReadUpTo(buffer, next, keySize, dataSize,
                     keys + [Slice(buffer, pos, pos + keySize)], values + [Slice(buffer, pos + keySize, next)])
  {
    var rest := SliceRecords(buffer, next, keySize, dataSize);
    assert (keys + [Slice(buffer, pos, pos + keySize)]) + rest.0 == keys + ([Slice(buffer, pos, pos + keySize)] + rest.0);
    assert (values + [Slice(buffer, pos + keySize, next)]) + rest.1 == values + ([Slice(buffer, pos + keySize, next)] + rest.1);
  }

  lemma ReadAll(buffer: Bytes, pos: nat, keySize: nat, dataSize: nat, keys: seq<Bytes>, values: seq<Bytes>)
    requires keySize + dataSize > 0 && pos >= |buffer|
    requires ReadUpTo(buffer, pos, keySize, dataSize, keys, values)
    ensures (keys, values) == SliceRecords(buffer, 1, keySize, dataSize)
  {
    assert keys + [] == keys && values + [] == values;
  }
}
