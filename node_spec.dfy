/**
 * What each operation of a `Node` (lib/node.js) does to the node's serialised
 * properties, written as functions on values. The class in node.dfy performs the
 * same operations in place and is proved to agree with these functions.
 */
module NodeSpec {
  import opened Bytes
  import opened Results
  import opened Arrays

  /** The serialised properties of a node: keys/values for a leaf, keys/pointers for an internal node. */
  datatype Contents = Contents(keys: seq<Bytes>, values: seq<Bytes>, pointers: seq<Bytes>) {

    function Size(): (n: nat) {
      |keys|
    }

    /** A node is a leaf exactly when it has no child pointers. */
    predicate IsLeaf() {
      |pointers| == 0
    }
  }

  datatype SearchResult = SearchResult(found: bool, index: nat)

  // ---------------------------------------------------------------- search

  /** The inner `binarySearch` of `search`, over keys[min..max]. */
  function BinarySearch(keys: seq<Bytes>, key: Bytes, min: nat, max: int): (r: SearchResult)
    requires max < |keys| && min <= max + 1
    ensures min <= r.index <= max + 1
    ensures r.found ==> r.index <= max && keys[r.index] == key
    decreases max + 1 - min
  {
    if min > max then SearchResult(false, min)
    else
      var position := (max + min) / 2;
      var valueCompare := Compare(keys[position], key);
      if valueCompare > 0 then BinarySearch(keys, key, min, position - 1)
      else if valueCompare < 0 then BinarySearch(keys, key, position + 1, max)
      else
        CompareZeroIffEqual(keys[position], key);
        SearchResult(true, position)
  }

  /**
   * `search`: the last key is compared first; only a key below it is looked for,
   * by binary search, among the other keys. A key above every key gets the index
   * of the last key, not one past it.
   */
  function Search(keys: seq<Bytes>, key: Bytes): (r: SearchResult)
    ensures |keys| == 0 ==> r == SearchResult(false, 0)
    ensures |keys| > 0 ==> r.index < |keys|
    ensures |keys| > 0 && keys[|keys| - 1] == key ==> r == SearchResult(true, |keys| - 1)
    ensures |keys| > 0 && Less(keys[|keys| - 1], key) ==> r == SearchResult(false, |keys| - 1)
    ensures r.found ==> keys[r.index] == key
  {
    if |keys| > 0 then
      var lastValueCompare := Compare(keys[|keys| - 1], key);
      CompareZeroIffEqual(keys[|keys| - 1], key);
      if lastValueCompare < 0 then SearchResult(false, |keys| - 1)
      else if lastValueCompare > 0 then BinarySearch(keys, key, 0, |keys| - 2)
      else SearchResult(true, |keys| - 1)
    else SearchResult(false, 0)
  }

  lemma LessIrreflexive(a: Bytes)
    ensures !Less(a, a)
  {
    CompareZeroIffEqual(a, a);
  }

  /** On increasing keys the binary search finds the key, or the first position above it. */
  lemma {:induction false} BinarySearchSorted(keys: seq<Bytes>, key: Bytes, min: nat, max: int)
    requires StrictlyIncreasing(keys)
    requires max < |keys| && min <= max + 1
    requires forall j :: 0 <= j < min ==> Less(keys[j], key)
    requires forall j :: max < j < |keys| ==> Less(key, keys[j])
    ensures var r := BinarySearch(keys, key, min, max);
      && (r.found <==> key in keys)
      && (!r.found ==>
            && (forall j :: 0 <= j < r.index ==> Less(keys[j], key))
            && (forall j :: r.index <= j < |keys| ==> Less(key, keys[j])))
    decreases max + 1 - min
  {
    LessIrreflexive(key);
    if min <= max {
      var position := (max + min) / 2;
      CompareFlip(keys[position], key);
      CompareZeroIffEqual(keys[position], key);
      var valueCompare := Compare(keys[position], key);
      if valueCompare > 0 {
        forall j | position - 1 < j < |keys|
          ensures Less(key, keys[j])
        {
          if j > position {
            LessTransitive(key, keys[position], keys[j]);
          }
        }
        BinarySearchSorted(keys, key, min, position - 1);
      } else if valueCompare < 0 {
        forall j | 0 <= j < position + 1
          ensures Less(keys[j], key)
        {
          if j < position {
            LessTransitive(keys[j], keys[position], key);
          }
        }
        BinarySearchSorted(keys, key, position + 1, max);
      }
    }
  }

  /**
   * On strictly increasing keys `search` finds exactly the keys that are present;
   * for a missing key below the last key the index is the sorted insertion point.
   */
  lemma SearchSorted(keys: seq<Bytes>, key: Bytes)
    requires StrictlyIncreasing(keys)
    ensures var r := Search(keys, key);
      && (r.found <==> key in keys)
      && (!r.found && |keys| > 0 && Less(key, keys[|keys| - 1]) ==>
            && (forall j :: 0 <= j < r.index ==> Less(keys[j], key))
            && (forall j :: r.index <= j < |keys| ==> Less(key, keys[j])))
      && (!r.found && |keys| > 0 && !Less(key, keys[|keys| - 1]) ==>
            forall j :: 0 <= j < |keys| ==> Less(keys[j], key))
  {
    if |keys| > 0 {
      var last := keys[|keys| - 1];
      CompareFlip(last, key);
      CompareZeroIffEqual(last, key);
      LessIrreflexive(key);
      var c := Compare(last, key);
      if c < 0 {
        forall j | 0 <= j < |keys|
          ensures Less(keys[j], key)
        {
          if j < |keys| - 1 {
            LessTransitive(keys[j], last, key);
          }
        }
      } else if c > 0 {
        BinarySearchSorted(keys, key, 0, |keys| - 2);
      }
    }
  }

  /** `searchMatch`: the index of a key `search` finds, else 'Key not found'. */
  function SearchMatch(keys: seq<Bytes>, key: Bytes): (r: Result<nat>)
    ensures r.Ok? <==> Search(keys, key).found
    ensures r.Ok? ==> r.value < |keys| && keys[r.value] == key
    ensures r.Err? ==> r.error == KeyNotFound
  {
    var result := Search(keys, key);
    if !result.found then Err(KeyNotFound) else Ok(result.index)
  }

  /** `searchLowerBound`: the insertion index of a key `search` does not find, else 'Duplicate key exists'. */
  function SearchLowerBound(keys: seq<Bytes>, key: Bytes): (r: Result<nat>)
    ensures r.Err? <==> Search(keys, key).found
    ensures r.Ok? ==> r.value < |keys| || r.value == |keys| == 0
    ensures r.Err? ==> r.error == DuplicateKey
  {
    var result := Search(keys, key);
    if result.found then Err(DuplicateKey) else Ok(result.index)
  }

  // ---------------------------------------------------------------- branch selection

  /**
   * `locatePointer`: the child to descend into. An empty key list reads
   * `keys[0]`, which is undefined; a child index past the pointers is undefined.
   */
  function LocatePointer(node: Contents, key: Bytes): (r: Result<Option<Bytes>>)
    ensures r.Err? <==> |node.keys| == 0
    ensures r.Err? ==> r.error == TypeError
    ensures |node.keys| > 0 && |node.pointers| > |node.keys| ==> r.Ok? && r.value.Some?
  {
    var result := Search(node.keys, key);
    if result.found then Ok(At(node.pointers, result.index + 1))
    else
      match At(node.keys, result.index)
      case None => Err(TypeError)
      case Some(k) =>
        if Compare(k, key) < 0 then Ok(At(node.pointers, result.index + 1))
        else Ok(At(node.pointers, result.index))
  }

  /** The number of keys not above `key`. */
  function CountAtMost(keys: seq<Bytes>, key: Bytes): (n: nat)
    ensures n <= |keys|
  {
    if |keys| == 0 then 0
    else (if Less(key, keys[0]) then 0 else 1) + CountAtMost(keys[1..], key)
  }

  lemma {:induction false} CountAtMostPartition(keys: seq<Bytes>, key: Bytes, p: nat)
    requires p <= |keys|
    requires forall j :: 0 <= j < p ==> !Less(key, keys[j])
    requires forall j :: p <= j < |keys| ==> Less(key, keys[j])
    ensures CountAtMost(keys, key) == p
  {
    if |keys| > 0 {
      CountAtMostPartition(keys[1..], key, if p == 0 then 0 else p - 1);
    }
  }

  /**
   * On a non-empty internal node with increasing keys and one more pointer than
   * keys, the child chosen for `key` is pointers[c], c the number of keys <= key.
   */
  lemma LocatePointerSorted(node: Contents, key: Bytes)
    requires StrictlyIncreasing(node.keys) && |node.keys| > 0
    requires |node.pointers| == |node.keys| + 1
    ensures LocatePointer(node, key) == Ok(Some(node.pointers[CountAtMost(node.keys, key)]))
  {
    var keys := node.keys;
    var r := Search(keys, key);
    SearchSorted(keys, key);
    LessIrreflexive(key);
    if r.found {
      forall j | 0 <= j <= r.index
        ensures !Less(key, keys[j])
      {
        if j < r.index {
          Trichotomy(keys[j], key);
        }
      }
      CountAtMostPartition(keys, key, r.index + 1);
    } else if Less(key, keys[|keys| - 1]) {
      CompareFlip(keys[r.index], key);
      forall j | 0 <= j < r.index
        ensures !Less(key, keys[j])
      {
        Trichotomy(keys[j], key);
      }
      CountAtMostPartition(keys, key, r.index);
    } else {
      forall j | 0 <= j < |keys|
        ensures !Less(key, keys[j])
      {
        Trichotomy(keys[j], key);
      }
      CountAtMostPartition(keys, key, |keys|);
    }
  }

  // ---------------------------------------------------------------- in-place edits

  /**
   * `unlinkPointer`: the key must be found; the pointer is then removed from
   * slot i or, failing that, slot i + 1, where i is the key's index.
   */
  function Unlink(node: Contents, key: Bytes, pointer: Bytes): (r: Result<Contents>)
    ensures r == Err(KeyNotFound) <==> !Search(node.keys, key).found
    ensures var i := Search(node.keys, key).index;
      r.Ok? <==>
        && Search(node.keys, key).found && i < |node.pointers|
        && (node.pointers[i] == pointer || (i + 1 < |node.pointers| && node.pointers[i + 1] == pointer))
    ensures r.Err? ==> r.error in {KeyNotFound, PointerNotConnected, TypeError}
    ensures r.Ok? ==> r.value.keys == node.keys && r.value.values == node.values
    ensures r.Ok? ==>
      && |r.value.pointers| == |node.pointers| - 1
      && multiset(r.value.pointers) + multiset{pointer} == multiset(node.pointers)
    ensures r.Ok? ==>
      var i := Search(node.keys, key).index;
      || (i < |node.pointers| && node.pointers[i] == pointer
            && r.value.pointers == RemoveAt(node.pointers, i))
      || (i + 1 < |node.pointers| && node.pointers[i] != pointer && node.pointers[i + 1] == pointer
            && r.value.pointers == RemoveAt(node.pointers, i + 1))
    ensures var i := Search(node.keys, key).index;
      r == Err(PointerNotConnected) <==>
        Search(node.keys, key).found && i + 1 < |node.pointers|
          && node.pointers[i] != pointer && node.pointers[i + 1] != pointer
  {
    var leftIndex :- SearchMatch(node.keys, key);
    var rightIndex := leftIndex + 1;
    match At(node.pointers, leftIndex)
    case None => Err(TypeError)
    case Some(left) =>
      CompareZeroIffEqual(left, pointer);
      if Compare(left, pointer) == 0 then Ok(node.(pointers := RemoveAt(node.pointers, leftIndex)))
      else
        match At(node.pointers, rightIndex)
        case None => Err(TypeError)
        case Some(right) =>
          CompareZeroIffEqual(right, pointer);
          if Compare(right, pointer) == 0 then Ok(node.(pointers := RemoveAt(node.pointers, rightIndex)))
          else Err(PointerNotConnected)
  }

  /**
   * `relinkPointer`: slot i or, failing that, slot i + 1 (i the search index,
   * found or not) holding the old pointer is overwritten with the new one.
   */
  function Relink(node: Contents, key: Bytes, oldPointer: Bytes, newPointer: Bytes): (r: Result<Contents>)
    ensures var i := Search(node.keys, key).index;
      r.Ok? <==>
        && i < |node.pointers|
        && (node.pointers[i] == oldPointer || (i + 1 < |node.pointers| && node.pointers[i + 1] == oldPointer))
    ensures r.Ok? ==>
      && r.value.keys == node.keys && r.value.values == node.values
      && |r.value.pointers| == |node.pointers|
    ensures r.Ok? ==>
      var i := Search(node.keys, key).index;
      || (i < |node.pointers| && node.pointers[i] == oldPointer
            && r.value.pointers == node.pointers[i := newPointer])
      || (i + 1 < |node.pointers| && node.pointers[i] != oldPointer && node.pointers[i + 1] == oldPointer
            && r.value.pointers == node.pointers[i + 1 := newPointer])
    ensures var i := Search(node.keys, key).index;
      r == Err(PointerNotConnected) <==>
        i + 1 < |node.pointers| && node.pointers[i] != oldPointer && node.pointers[i + 1] != oldPointer
    ensures r.Err? ==> r.error in {PointerNotConnected, TypeError}
  {
    var result := Search(node.keys, key);
    var leftIndex := result.index;
    var rightIndex := leftIndex + 1;
    match At(node.pointers, leftIndex)
    case None => Err(TypeError)
    case Some(left) =>
      CompareZeroIffEqual(left, oldPointer);
      if Compare(left, oldPointer) == 0 then Ok(node.(pointers := node.pointers[leftIndex := newPointer]))
      else
        match At(node.pointers, rightIndex)
        case None => Err(TypeError)
        case Some(right) =>
          CompareZeroIffEqual(right, oldPointer);
          if Compare(right, oldPointer) == 0 then Ok(node.(pointers := node.pointers[rightIndex := newPointer]))
          else Err(PointerNotConnected)
  }

  datatype Promotion = Promotion(node: Contents, position: nat)

  /**
   * `promoteKey`: the key is spliced into `keys` one past the search index when
   * the key there is greater, at the index when it is smaller. The two pointer
   * arguments reach only `slice`, which leaves `pointers` as it was.
   */
  function Promote(node: Contents, key: Bytes, leftPointer: Bytes, rightPointer: Bytes): (r: Result<Promotion>)
    ensures |node.keys| == 0 ==> r == Err(TypeError)
    ensures |node.keys| > 0 ==>
      (r == Err(KeyAlreadyExists) <==> node.keys[Search(node.keys, key).index] == key)
    ensures r.Ok? <==> |node.keys| > 0 && node.keys[Search(node.keys, key).index] != key
    ensures r.Ok? ==>
      var i := Search(node.keys, key).index;
      r.value.position == if Less(key, node.keys[i]) then i + 1 else i
    ensures r.Ok? ==>
      && r.value.node.pointers == node.pointers && r.value.node.values == node.values
      && r.value.position <= |node.keys|
      && r.value.node.keys == InsertAt(node.keys, r.value.position, key)
  {
    var result := Search(node.keys, key);
    match At(node.keys, result.index)
    case None => Err(TypeError)
    case Some(k) =>
      CompareZeroIffEqual(k, key);
      CompareFlip(k, key);
      if Compare(k, key) > 0 then
        Ok(Promotion(node.(keys := InsertAt(node.keys, result.index + 1, key)), result.index + 1))
      else if Compare(k, key) < 0 then
        Ok(Promotion(node.(keys := InsertAt(node.keys, result.index, key)), result.index))
      else Err(KeyAlreadyExists)
  }

  datatype Insertion = Insertion(position: Option<nat>, node: Contents)

  /**
   * `insert`: `false` (here `None`) and no change when `search` finds the key;
   * otherwise key and value are spliced in at the search index.
   */
  function Insert(node: Contents, key: Bytes, value: Bytes): (r: Insertion)
    ensures r.position.None? <==> Search(node.keys, key).found
    ensures r.position.None? ==> r.node == node
    ensures r.position.Some? ==>
      var pos := r.position.value;
      && pos <= |node.keys|
      && r.node.keys == InsertAt(node.keys, pos, key)
      && r.node.values == InsertAt(node.values, pos, value)
      && r.node.pointers == node.pointers
  {
    match SearchLowerBound(node.keys, key)
    case Err(_) => Insertion(None, node)
    case Ok(pos) =>
      Insertion(Some(pos), node.(keys := InsertAt(node.keys, pos, key), values := InsertAt(node.values, pos, value)))
  }

  /** `get`: the value stored beside a key `search` finds; past the values it is undefined. */
  function Get(node: Contents, key: Bytes): (r: Result<Option<Bytes>>)
    ensures r.Ok? <==> Search(node.keys, key).found
    ensures r.Err? ==> r.error == KeyNotFound
    ensures r.Ok? && |node.values| >= |node.keys| ==>
      var i := Search(node.keys, key).index;
      node.keys[i] == key && r.value == Some(node.values[i])
  {
    var index :- SearchMatch(node.keys, key);
    Ok(At(node.values, index))
  }

  // ---------------------------------------------------------------- split

  datatype Halves = Halves(left: Contents, right: Contents, middleKey: Option<Bytes>)

  /**
   * `split` at h = floor(B / 2). A leaf keeps keys[h] in its right half; an
   * internal node gives keys[h] up as the middle key and shares its pointers
   * out as pointers[..h+1] and pointers[h+1..].
   */
  function Split(node: Contents, branchingFactor: nat): (r: Result<Halves>)
    ensures r.Err? <==> branchingFactor == 0
    ensures r.Ok? ==> r.value.middleKey == At(node.keys, branchingFactor / 2)
  {
    if branchingFactor == 0 then Err(AssertionError("branchingFactor is expected to be a number"))
    else
      var halfPosition := branchingFactor / 2;
      if node.IsLeaf() then
        Ok(Halves(
          Contents(Slice(node.keys, 0, halfPosition), Slice(node.values, 0, halfPosition), []),
          Contents(Slice(node.keys, halfPosition, |node.keys|), Slice(node.values, halfPosition, |node.values|), []),
          At(node.keys, halfPosition)))
      else
        Ok(Halves(
          Contents(Slice(node.keys, 0, halfPosition), [], Slice(node.pointers, 0, halfPosition + 1)),
          Contents(Slice(node.keys, halfPosition + 1, |node.keys|), [], Slice(node.pointers, halfPosition + 1, |node.pointers|)),
          At(node.keys, halfPosition)))
  }

  /** A leaf splits into the first h entries and the rest; the middle key is the right half's first key. */
  lemma SplitLeaf(node: Contents, branchingFactor: nat)
    requires branchingFactor > 0 && node.IsLeaf()
    ensures var s := Split(node, branchingFactor).value;
      && s.left.IsLeaf() && s.right.IsLeaf()
      && s.left.keys + s.right.keys == node.keys
      && s.left.values + s.right.values == node.values
      && (branchingFactor / 2 < |node.keys| ==>
            && |s.left.keys| == branchingFactor / 2
            && s.middleKey == Some(s.right.keys[0]))
      && (branchingFactor / 2 <= |node.values| ==> |s.left.values| == branchingFactor / 2)
  {
    var h := branchingFactor / 2;
    var s := Split(node, branchingFactor).value;
    if h < |node.keys| {
      assert s.left.keys == node.keys[..h] && s.right.keys == node.keys[h..];
    } else {
      assert s.left.keys == node.keys && s.right.keys == [];
    }
    if h < |node.values| {
      assert s.left.values == node.values[..h] && s.right.values == node.values[h..];
    } else {
      assert s.left.values == node.values && s.right.values == [];
    }
  }

  /**
   * An internal node splits into keys[..h] with pointers[..h+1] and keys[h+1..]
   * with pointers[h+1..]; keys[h] goes up as the middle key and is in neither half.
   */
  lemma SplitInternal(node: Contents, branchingFactor: nat)
    requires branchingFactor > 0 && !node.IsLeaf()
    ensures var s := Split(node, branchingFactor).value;
      && s.left.values == [] && s.right.values == []
      && s.left.pointers + s.right.pointers == node.pointers
      && (branchingFactor / 2 < |node.keys| ==>
            && |s.left.keys| == branchingFactor / 2
            && s.left.keys + [s.middleKey.value] + s.right.keys == node.keys
            && (branchingFactor / 2 < |node.pointers| ==> |s.left.pointers| == branchingFactor / 2 + 1))
  {
    var h := branchingFactor / 2;
    var s := Split(node, branchingFactor).value;
    if h + 1 < |node.pointers| {
      assert s.left.pointers == node.pointers[..h + 1] && s.right.pointers == node.pointers[h + 1..];
    } else {
      assert s.left.pointers == node.pointers && s.right.pointers == [];
    }
    if h < |node.keys| {
      assert s.left.keys == node.keys[..h] && s.right.keys == node.keys[h + 1..];
      assert node.keys == node.keys[..h] + [node.keys[h]] + node.keys[h + 1..];
    }
  }

  // ---------------------------------------------------------------- order

  lemma InsertAtKeepsOrder(keys: seq<Bytes>, i: nat, key: Bytes)
    requires StrictlyIncreasing(keys) && i <= |keys|
    requires forall j :: 0 <= j < i ==> Less(keys[j], key)
    requires forall j :: i <= j < |keys| ==> Less(key, keys[j])
    ensures StrictlyIncreasing(InsertAt(keys, i, key))
  {
    var s := InsertAt(keys, i, key);
    forall a, b | 0 <= a < b < |s|
      ensures Less(s[a], s[b])
    {
      assert s[a] == if a < i then keys[a] else if a == i then key else keys[a - 1];
      assert s[b] == if b < i then keys[b] else if b == i then key else keys[b - 1];
      if a < i && b > i {
        LessTransitive(keys[a], key, keys[b - 1]);
      }
    }
  }

  /**
   * On increasing keys `insert` refuses exactly the keys already present, and keeps
   * the keys increasing when they were empty or the new key is below the last key.
   */
  lemma InsertSorted(node: Contents, key: Bytes, value: Bytes)
    requires StrictlyIncreasing(node.keys)
    ensures var r := Insert(node, key, value);
      && (r.position.None? <==> key in node.keys)
      && (key !in node.keys && (|node.keys| == 0 || Less(key, node.keys[|node.keys| - 1])) ==>
            StrictlyIncreasing(r.node.keys))
  {
    SearchSorted(node.keys, key);
    var r := Search(node.keys, key);
    if !r.found && |node.keys| > 0 && Less(key, node.keys[|node.keys| - 1]) {
      InsertAtKeepsOrder(node.keys, r.index, key);
    }
  }

  /** A key above the last key is placed just before it, which breaks the order. */
  lemma InsertAboveLastKey(node: Contents, key: Bytes, value: Bytes)
    requires |node.keys| > 0 && Less(node.keys[|node.keys| - 1], key)
    ensures var r := Insert(node, key, value);
      var n := |node.keys|;
      && r.position == Some(n - 1)
      && r.node.keys[n - 1] == key && r.node.keys[n] == node.keys[n - 1]
      && !StrictlyIncreasing(r.node.keys)
  {
    var n := |node.keys|;
    Trichotomy(node.keys[n - 1], key);
    var keys' := Insert(node, key, value).node.keys;
    assert keys'[n - 1] == key && keys'[n] == node.keys[n - 1];
  }

  /**
   * Whatever the keys, a successful `promoteKey` leaves the new key next to a key
   * on the wrong side of it: the order of the keys is never kept.
   */
  lemma PromoteBreaksOrder(node: Contents, key: Bytes, leftPointer: Bytes, rightPointer: Bytes)
    requires Promote(node, key, leftPointer, rightPointer).Ok?
    ensures !StrictlyIncreasing(Promote(node, key, leftPointer, rightPointer).value.node.keys)
  {
    var i := Search(node.keys, key).index;
    var k := node.keys[i];
    var p := Promote(node, key, leftPointer, rightPointer).value;
    Trichotomy(k, key);
    CompareFlip(k, key);
    if Compare(k, key) > 0 {
      assert p.node.keys[i] == k && p.node.keys[i + 1] == key;
    } else {
      assert p.node.keys[i] == key && p.node.keys[i + 1] == k;
    }
  }

  /** A leaf with increasing keys answers `get` with the value stored beside the key. */
  lemma GetSorted(node: Contents, key: Bytes)
    requires StrictlyIncreasing(node.keys) && |node.values| == |node.keys|
    ensures Get(node, key).Ok? <==> key in node.keys
    ensures forall i :: 0 <= i < |node.keys| && node.keys[i] == key ==> Get(node, key) == Ok(Some(node.values[i]))
  {
    SearchSorted(node.keys, key);
    LessIrreflexive(key);
  }

  /**
   * Halves of a node with increasing keys are increasing, every left key is
   * below the middle key, and every right key is above it (a leaf's right half
   * starts with it).
   */
  lemma SplitSeparates(node: Contents, branchingFactor: nat)
    requires StrictlyIncreasing(node.keys)
    requires 0 < branchingFactor && branchingFactor / 2 < |node.keys|
    ensures var s := Split(node, branchingFactor).value;
      var m := s.middleKey.value;
      && StrictlyIncreasing(s.left.keys) && StrictlyIncreasing(s.right.keys)
      && (forall j :: 0 <= j < |s.left.keys| ==> Less(s.left.keys[j], m))
      && (node.IsLeaf() ==> s.right.keys[0] == m)
      && (forall j :: (if node.IsLeaf() then 1 else 0) <= j < |s.right.keys| ==> Less(m, s.right.keys[j]))
  {
    var h := branchingFactor / 2;
    var s := Split(node, branchingFactor).value;
    var d := if node.IsLeaf() then h else h + 1;
    assert s.left.keys == node.keys[..h];
    assert s.right.keys == node.keys[d..];
  }
}
