/** The `Node` object of lib/node.js: its fields and the methods that read or edit them in place. */
module Nodes {
  import opened Bytes
  import opened Results
  import opened Arrays
  import NodeSpec
  import NodeCodec

  /** What `split` returns: two fresh nodes and the key between them. */
  datatype SplitNodes = SplitNodes(left: Node, right: Node, middleKey: Option<Bytes>)

  class Node {
    // serialised properties
    var keys: seq<Bytes>
    var values: seq<Bytes>
    var pointers: seq<Bytes>
    // not serialised: the node this one was reached from, and the pointer it was fetched by
    var parent: Node?
    var pointer: Option<Bytes>

    constructor (keys: seq<Bytes>, values: seq<Bytes>, pointers: seq<Bytes>, parent: Node?, pointer: Option<Bytes>)
      ensures this.keys == keys && this.values == values && this.pointers == pointers
      ensures this.parent == parent && this.pointer == pointer
    {
      this.keys := keys;
      this.values := values;
      this.pointers := pointers;
      this.parent := parent;
      this.pointer := pointer;
    }

    /** The serialised properties, as the value the specification functions take. */
    function Contents(): (c: NodeSpec.Contents)
      reads this
    {
      NodeSpec.Contents(keys, values, pointers)
    }

    /** `size` and `isLeaf` are those of the node's contents. */
    function Size(): (n: nat)
      reads this
    {
      Contents().Size()
    }

    predicate IsLeaf()
      reads this
    {
      Contents().IsLeaf()
    }

    method Search(key: Bytes) returns (r: NodeSpec.SearchResult)
      ensures r == NodeSpec.Search(keys, key)
    {
      if |keys| > 0 {
        var lastValueCompare := Compare(keys[|keys| - 1], key);
        if lastValueCompare < 0 {
          r := NodeSpec.SearchResult(false, |keys| - 1);
        } else if lastValueCompare > 0 {
          r := BinarySearch(key);
        } else {
          r := NodeSpec.SearchResult(true, |keys| - 1);
        }
      } else {
        r := NodeSpec.SearchResult(false, 0);
      }
    }

    /** The loop of `search` over keys[0..len-2]; the last key is never visited. */
    method BinarySearch(key: Bytes) returns (r: NodeSpec.SearchResult)
      requires |keys| > 0
      ensures r == NodeSpec.BinarySearch(keys, key, 0, |keys| - 2)
    {
      var max: int := |keys| - 2;
      var min: nat := 0;
      while min <= max
        invariant max < |keys| && min <= max + 1
        invariant NodeSpec.BinarySearch(keys, key, min, max) == NodeSpec.BinarySearch(keys, key, 0, |keys| - 2)
        decreases max + 1 - min
      {
        var position := (max + min) / 2;
        var valueCompare := Compare(keys[position], key);
        if valueCompare > 0 {
          max := position - 1;
        } else if valueCompare < 0 {
          min := position + 1;
        } else {
          return NodeSpec.SearchResult(true, position);
        }
      }
      return NodeSpec.SearchResult(false, min);
    }

    method SearchMatch(key: Bytes) returns (r: Result<nat>)
      ensures r == NodeSpec.SearchMatch(keys, key)
    {
      var result := Search(key);
      if !result.found {
        r := Err(KeyNotFound);
      } else {
        r := Ok(result.index);
      }
    }

    method SearchLowerBound(key: Bytes) returns (r: Result<nat>)
      ensures r == NodeSpec.SearchLowerBound(keys, key)
    {
      var result := Search(key);
      if result.found {
        r := Err(DuplicateKey);
      } else {
        r := Ok(result.index);
      }
    }

    method LocatePointer(key: Bytes) returns (r: Result<Option<Bytes>>)
      ensures r == NodeSpec.LocatePointer(Contents(), key)
    {
      var result := Search(key);
      if result.found {
        return Ok(At(pointers, result.index + 1));
      }
      if result.index >= |keys| {
        return Err(TypeError); // keys[0] of an empty node is undefined
      }
      if Compare(keys[result.index], key) < 0 {
        r := Ok(At(pointers, result.index + 1));
      } else {
        r := Ok(At(pointers, result.index));
      }
    }

    method UnlinkPointer(key: Bytes, pointer: Bytes) returns (r: Result<()>)
      modifies this`pointers
      ensures match NodeSpec.Unlink(old(Contents()), key, pointer)
        case Ok(c) => r == Ok(()) && Contents() == c
        case Err(e) => r == Err(e) && pointers == old(pointers)
    {
      var leftIndex :- SearchMatch(key);
      var rightIndex := leftIndex + 1;
      if leftIndex >= |pointers| {
        return Err(TypeError);
      }
      if Compare(pointers[leftIndex], pointer) == 0 {
        pointers := pointers[..leftIndex] + pointers[leftIndex + 1..];
        return Ok(());
      }
      if rightIndex >= |pointers| {
        return Err(TypeError);
      }
      if Compare(pointers[rightIndex], pointer) == 0 {
        pointers := pointers[..rightIndex] + pointers[rightIndex + 1..];
        return Ok(());
      }
      return Err(PointerNotConnected);
    }

    method RelinkPointer(key: Bytes, oldPointer: Bytes, newPointer: Bytes) returns (r: Result<()>)
      modifies this`pointers
      ensures match NodeSpec.Relink(old(Contents()), key, oldPointer, newPointer)
        case Ok(c) => r == Ok(()) && Contents() == c
        case Err(e) => r == Err(e) && pointers == old(pointers)
    {
      var result := Search(key);
      var leftIndex := result.index;
      var rightIndex := leftIndex + 1;
      if leftIndex >= |pointers| {
        return Err(TypeError);
      }
      if Compare(pointers[leftIndex], oldPointer) == 0 {
        pointers := pointers[leftIndex := newPointer];
        return Ok(());
      }
      if rightIndex >= |pointers| {
        return Err(TypeError);
      }
      if Compare(pointers[rightIndex], oldPointer) == 0 {
        pointers := pointers[rightIndex := newPointer];
        return Ok(());
      }
      return Err(PointerNotConnected);
    }

    /** Only `keys` is in the frame: the two `slice` calls on `pointers` build copies and drop them. */
    method PromoteKey(key: Bytes, leftPointer: Bytes, rightPointer: Bytes) returns (r: Result<nat>)
      modifies this`keys
      ensures match NodeSpec.Promote(old(Contents()), key, leftPointer, rightPointer)
        case Ok(p) => r == Ok(p.position) && Contents() == p.node
        case Err(e) => r == Err(e) && keys == old(keys)
    {
      var result := Search(key);
      if result.index >= |keys| {
        return Err(TypeError);
      }
      var pos;
      if Compare(keys[result.index], key) > 0 {
        pos := result.index + 1;
      } else if Compare(keys[result.index], key) < 0 {
        pos := result.index;
      } else {
        return Err(KeyAlreadyExists);
      }
      keys := InsertAt(keys, pos, key);
      var _ := Slice(pointers, pos, 0);
      var _ := Slice(pointers, pos + 1, 0);
      r := Ok(pos);
    }

    method Get(key: Bytes) returns (r: Result<Option<Bytes>>)
      ensures r == NodeSpec.Get(Contents(), key)
    {
      var index :- SearchMatch(key);
      r := Ok(At(values, index));
    }

    /** `insert`; the 'Duplicate key exists' error of `searchLowerBound` is caught and answered with `false` (`None`). */
    method Insert(key: Bytes, value: Bytes) returns (r: Option<nat>)
      modifies this`keys, this`values
      ensures var ins := NodeSpec.Insert(old(Contents()), key, value);
        r == ins.position && Contents() == ins.node
    {
      var lowerIndex := SearchLowerBound(key);
      if lowerIndex.Err? {
        return None;
      }
      var pos := lowerIndex.value;
      keys := InsertAt(keys, pos, key);
      values := InsertAt(values, pos, value);
      r := Some(pos);
    }

    method Split(branchingFactor: nat) returns (r: Result<SplitNodes>)
      ensures match NodeSpec.Split(Contents(), branchingFactor)
        case Ok(h) =>
          && r.Ok? && fresh(r.value.left) && fresh(r.value.right) && r.value.left != r.value.right
          && r.value.left.Contents() == h.left && r.value.right.Contents() == h.right
          && r.value.middleKey == h.middleKey
          && r.value.left.parent == null && r.value.left.pointer == None
          && r.value.right.parent == null && r.value.right.pointer == None
        case Err(e) => r == Err(e)
    {
      if branchingFactor == 0 {
        return Err(AssertionError("branchingFactor is expected to be a number"));
      }
      var halfPosition := branchingFactor / 2;
      var left, right;
      if IsLeaf() {
        left := new Node(Slice(keys, 0, halfPosition), Slice(values, 0, halfPosition), [], null, None);
        right := new Node(Slice(keys, halfPosition, |keys|), Slice(values, halfPosition, |values|), [], null, None);
      } else {
        left := new Node(Slice(keys, 0, halfPosition), [], Slice(pointers, 0, halfPosition + 1), null, None);
        right := new Node(Slice(keys, halfPosition + 1, |keys|), [], Slice(pointers, halfPosition + 1, |pointers|), null, None);
      }
      r := Ok(SplitNodes(left, right, At(keys, halfPosition)));
    }

    method ToBuffer() returns (r: Result<Bytes>)
      ensures r == NodeCodec.Encode(Contents())
    {
      var buffers: Bytes;
      var seconds: seq<Bytes>;
      if IsLeaf() {
        buffers, seconds := NodeCodec.LeafTag, values;
      } else {
        buffers, seconds := NodeCodec.InternalTag, pointers;
      }
      ghost var tag := buffers;
      for i := 0 to |keys|
        invariant i <= |seconds|
        invariant buffers == tag + NodeCodec.Records(keys[..i], seconds[..i])
      {
        if i >= |seconds| {
          return Err(TypeError); // Buffer.concat of a list holding `undefined`
        }
        NodeCodec.RecordsSnoc(keys[..i], seconds[..i], keys[i], seconds[i]);
        assert keys[..i + 1] == keys[..i] + [keys[i]] && seconds[..i + 1] == seconds[..i] + [seconds[i]];
        buffers := buffers + (keys[i] + seconds[i]);
      }
      NodeCodec.RecordsReadPrefix(keys, seconds[..|keys|], seconds[|keys|..]);
      assert keys[..|keys|] == keys && seconds[..|keys|] + seconds[|keys|..] == seconds;
      r := Ok(buffers);
    }

    method Hash(sha256: Bytes -> Bytes) returns (r: Result<Bytes>)
      ensures r == NodeCodec.Hash(sha256, Contents())
    {
      var buffer :- ToBuffer();
      r := Ok(sha256(buffer));
    }

    /** `Node.fromBuffer`; `pointerSize` would serve the internal decoder, which does not exist. */
    static method FromBuffer(buffer: Bytes, keySize: nat, valueSize: nat, pointerSize: nat, parent: Node?, pointer: Option<Bytes>)
      returns (r: Result<Node>)
      requires keySize + valueSize > 0
      ensures match NodeCodec.Decode(buffer, keySize, valueSize)
        case Ok(c) =>
          && r.Ok? && fresh(r.value) && r.value.Contents() == c
          && r.value.parent == parent && r.value.pointer == pointer
        case Err(e) => r == Err(e)
    {
      var tag := Slice(buffer, 0, 1);
      if Compare(tag, NodeCodec.LeafTag) == 0 {
        var node := FromBufferLeaf(buffer, keySize, valueSize, parent, pointer);
        r := Ok(node);
      } else if Compare(tag, NodeCodec.InternalTag) == 0 {
        r := Err(TypeError); // `_fromBufferInternal` calls the undefined `Node._sliceNodeBuffer`
      } else {
        r := Err(UnknownNodeType);
      }
    }

    static method FromBufferLeaf(buffer: Bytes, keySize: nat, valueSize: nat, parent: Node?, pointer: Option<Bytes>)
      returns (node: Node)
      requires keySize + valueSize > 0
      ensures fresh(node)
      ensures var records := NodeCodec.SliceRecords(buffer, 1, keySize, valueSize);
        node.Contents() == NodeSpec.Contents(records.0, records.1, [])
      ensures node.parent == parent && node.pointer == pointer
    {
      var keys, values := SliceBuffer(buffer, keySize, valueSize);
      node := new Node(keys, values, [], parent, pointer);
    }

    static method SliceBuffer(buffer: Bytes, keySize: nat, dataSize: nat) returns (keys: seq<Bytes>, values: seq<Bytes>)
      requires keySize + dataSize > 0
      ensures (keys, values) == NodeCodec.SliceRecords(buffer, 1, keySize, dataSize)
    {
      keys, values := [], [];
      var size := keySize + dataSize;
      var pos: nat := 1;
      NodeCodec.ReadNothing(buffer, keySize, dataSize);
      while pos < |buffer|
        invariant NodeCodec.ReadUpTo(buffer, pos, keySize, dataSize, keys, values)
        decreases |buffer| - pos
      {
        NodeCodec.ReadOneMore(buffer, pos, pos + size, keySize, dataSize, keys, values);
        keys := keys + [Slice(buffer, pos, pos + keySize)];
        values := values + [Slice(buffer, pos + keySize, pos + size)];
        pos := pos + size;
      }
      NodeCodec.ReadAll(buffer, pos, keySize, dataSize, keys, values);
    }
  }
}
