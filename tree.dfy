/**
 * The `Tree` object of lib/tree.js: the insert engine over a content-addressed
 * store. Every node is written under the SHA-256 digest of its bytes; the store
 * is a map field, the digest function a parameter of the tree.
 */
module Trees {
  import opened Bytes
  import opened Results
  import NodeSpec
  import NodeCodec
  import opened Nodes
  import opened Arrays

  const DefaultBranchingFactor: nat := 1000
  const DefaultKeySize: nat := 8
  const DefaultValueSize: nat := 32
  const PointerSize: nat := 32

  /** Every record `after` adds or replaces holds one of the encodings `a` and `b`. */
  ghost predicate WroteOnly(before: map<Bytes, Bytes>, after: map<Bytes, Bytes>, a: Result<Bytes>, b: Result<Bytes>) {
    forall k :: k in after && (k !in before || after[k] != before[k]) ==> Ok(after[k]) == a || Ok(after[k]) == b
  }

  /** The bound on split-and-retry rounds of one insert (the source has none). */
  const MaxRounds: nat := 64

  type Positive = n: nat | n > 0 witness 1

  /** What `utils.sha256` returns: 32 bytes. */
  type Digest = b: Bytes | |b| == 32 witness seq(32, _ => 0)

  /** What `_putNode` hands to its callback: the node, its digest and its bytes. */
  datatype Stored = Stored(node: Node, pointer: Digest, value: Bytes)

  /**
   * The parent's contents after `_propagateSplitToParent` edited it: the
   * child's old pointer unlinked, then the middle key promoted. An undefined
   * middle key makes `promoteKey` compare against `undefined`.
   */
  function Propagated(parent: NodeSpec.Contents, childKey: Bytes, childPointer: Bytes,
                      middleKey: Option<Bytes>, leftPointer: Bytes, rightPointer: Bytes): (r: Result<NodeSpec.Contents>)
    ensures NodeSpec.Unlink(parent, childKey, childPointer).Err? ==>
      r == Err(NodeSpec.Unlink(parent, childKey, childPointer).error)
    ensures NodeSpec.Unlink(parent, childKey, childPointer).Ok? && middleKey.None? ==> r == Err(TypeError)
    ensures r.Ok? ==>
      && r.value.values == parent.values
      && r.value.pointers == NodeSpec.Unlink(parent, childKey, childPointer).value.pointers
    ensures r.Ok? ==> middleKey.Some? && multiset(r.value.keys) == multiset(parent.keys) + multiset{middleKey.value}
  {
    var unlinked :- NodeSpec.Unlink(parent, childKey, childPointer);
    if middleKey.None? then Err(TypeError)
    else
      var promoted :- NodeSpec.Promote(unlinked, middleKey.value, leftPointer, rightPointer);
      var k, pos, m := unlinked.keys, promoted.position, middleKey.value;
      assert pos <= |k| ==> InsertAt(k, pos, m) == k[..pos] + [m] + k[pos..] && k == k[..pos] + k[pos..];
      Ok(promoted.node)
  }

  /**
   * A propagation that succeeds leaves the parent with one key more and one
   * pointer fewer: the promoted digests never reach `pointers`.
   */
  lemma PropagatedShape(parent: NodeSpec.Contents, childKey: Bytes, childPointer: Bytes,
                        middleKey: Option<Bytes>, leftPointer: Bytes, rightPointer: Bytes)
    requires Propagated(parent, childKey, childPointer, middleKey, leftPointer, rightPointer).Ok?
    ensures var c := Propagated(parent, childKey, childPointer, middleKey, leftPointer, rightPointer).value;
      && middleKey.Some? && middleKey.value in c.keys
      && |c.keys| == |parent.keys| + 1 && |c.pointers| == |parent.pointers| - 1
      && multiset(c.pointers) + multiset{childPointer} == multiset(parent.pointers)
      && multiset(c.pointers) <= multiset(parent.pointers)
  {
    var unlinked := NodeSpec.Unlink(parent, childKey, childPointer).value;
    var promoted := NodeSpec.Promote(unlinked, middleKey.value, leftPointer, rightPointer).value;
    var k := InsertAt(unlinked.keys, promoted.position, middleKey.value);
    assert k[promoted.position] == middleKey.value;
  }

  /**
   * A split child whose first key is not one of the parent's keys cannot be
   * propagated: `unlinkPointer` throws 'Key not found'.
   */
  lemma PropagateNeedsChildKey(parent: NodeSpec.Contents, childKey: Bytes, childPointer: Bytes,
                               middleKey: Option<Bytes>, leftPointer: Bytes, rightPointer: Bytes)
    requires childKey !in parent.keys
    ensures Propagated(parent, childKey, childPointer, middleKey, leftPointer, rightPointer) == Err(KeyNotFound)
  {
  }

  /**
   * A parent with one pointer more than keys, as an internal node is meant to
   * be, has one key more than pointers after a successful propagation: its
   * encoding meets an undefined pointer, so `_putNode(parent)` always throws.
   */
  lemma PropagatedUnencodable(parent: NodeSpec.Contents, childKey: Bytes, childPointer: Bytes,
                              middleKey: Option<Bytes>, leftPointer: Bytes, rightPointer: Bytes)
    requires |parent.pointers| == |parent.keys| + 1
    requires Propagated(parent, childKey, childPointer, middleKey, leftPointer, rightPointer).Ok?
    ensures var c := Propagated(parent, childKey, childPointer, middleKey, leftPointer, rightPointer).value;
      && !c.IsLeaf() && |c.keys| == |c.pointers| + 1
      && NodeCodec.Encode(c) == Err(TypeError)
  {
    PropagatedShape(parent, childKey, childPointer, middleKey, leftPointer, rightPointer);
  }

  /**
   * When such a parent is over B - 1 keys and is split instead, with B at least
   * 3, its right half has more keys than pointers: the `toBuffer` of the right
   * half throws, so the split of the parent fails too.
   */
  lemma PropagatedSplitUnencodable(parent: NodeSpec.Contents, childKey: Bytes, childPointer: Bytes,
                                   middleKey: Option<Bytes>, leftPointer: Bytes, rightPointer: Bytes,
                                   branchingFactor: nat)
    requires branchingFactor >= 3
    requires |parent.pointers| == |parent.keys| + 1
    requires Propagated(parent, childKey, childPointer, middleKey, leftPointer, rightPointer).Ok?
    requires |Propagated(parent, childKey, childPointer, middleKey, leftPointer, rightPointer).value.keys| > branchingFactor - 1
    ensures var c := Propagated(parent, childKey, childPointer, middleKey, leftPointer, rightPointer).value;
      NodeCodec.Encode(NodeSpec.Split(c, branchingFactor).value.right) == Err(TypeError)
  {
    var c := Propagated(parent, childKey, childPointer, middleKey, leftPointer, rightPointer).value;
    PropagatedUnencodable(parent, childKey, childPointer, middleKey, leftPointer, rightPointer);
    NodeSpec.SplitInternal(c, branchingFactor);
    var s := NodeSpec.Split(c, branchingFactor).value;
    assert |s.left.pointers| == branchingFactor / 2 + 1;
    assert |s.right.keys| == |c.keys| - branchingFactor / 2 - 1;
    assert |s.right.pointers| == |c.pointers| - branchingFactor / 2 - 1;
  }

  class Tree {
    var db: map<Bytes, Bytes>
    var root: Node
    const branchingFactor: Positive
    const keySize: Positive
    const valueSize: Positive
    const sha256: Bytes -> Digest

    /** Options left out, or given as 0, take the defaults, as `options.x || DEFAULT` does. */
    constructor (db: map<Bytes, Bytes>, branchingFactor: nat, keySize: nat, valueSize: nat, root: Node?, sha256: Bytes -> Digest)
      ensures this.db == db && this.sha256 == sha256
      ensures this.branchingFactor == if branchingFactor == 0 then DefaultBranchingFactor else branchingFactor
      ensures this.keySize == if keySize == 0 then DefaultKeySize else keySize
      ensures this.valueSize == if valueSize == 0 then DefaultValueSize else valueSize
      ensures root != null ==> this.root == root
      ensures root == null ==>
        && fresh(this.root) && this.root.Contents() == NodeSpec.Contents([], [], [])
        && this.root.parent == null && this.root.pointer == None
      ensures root == null || root.parent == null ==> Valid()
    {
      this.db := db;
      this.branchingFactor := if branchingFactor == 0 then DefaultBranchingFactor else branchingFactor;
      this.keySize := if keySize == 0 then DefaultKeySize else keySize;
      this.valueSize := if valueSize == 0 then DefaultValueSize else valueSize;
      this.sha256 := sha256;
      if root == null {
        this.root := new Node([], [], [], null, None);
      } else {
        this.root := root;
      }
    }

    /** The most keys a node may hold before it is split. */
    function MaxLeafSize(): (m: nat)
      ensures m < branchingFactor
    {
      branchingFactor - 1
    }

    /** The root is the top of the tree: it was never reached through a pointer. */
    ghost predicate Valid()
      reads this, root
    {
      root.parent == null
    }

    /** Every record of the store sits under the digest of its bytes. */
    ghost predicate Addressed(m: map<Bytes, Bytes>) {
      forall k :: k in m ==> k == sha256(m[k])
    }

    /** `after` keeps every key of `before`, and every record it adds or replaces is content-addressed. */
    ghost predicate Extends(before: map<Bytes, Bytes>, after: map<Bytes, Bytes>) {
      && before.Keys <= after.Keys
      && forall k :: k in after && (k !in before || after[k] != before[k]) ==> k == sha256(after[k])
    }

    /** The store after `_putNode` wrote the bytes `b`. */
    function Put(m: map<Bytes, Bytes>, b: Bytes): (r: map<Bytes, Bytes>)
      ensures r.Keys == m.Keys + {sha256(b)} && r[sha256(b)] == b
      ensures forall k :: k in m && k != sha256(b) ==> r[k] == m[k]
      ensures Extends(m, r)
    {
      m[sha256(b) := b]
    }

    /** A store-grown-by-`put` chain never loses a content address. */
    lemma ExtendsKeepsAddressed(before: map<Bytes, Bytes>, after: map<Bytes, Bytes>)
      requires Addressed(before) && Extends(before, after)
      ensures Addressed(after)
    {
      forall k | k in after
        ensures k == sha256(after[k])
      {
        if k in before && after[k] == before[k] {
          assert k == sha256(before[k]);
        }
      }
    }

    lemma ExtendsTransitive(a: map<Bytes, Bytes>, b: map<Bytes, Bytes>, c: map<Bytes, Bytes>)
      requires Extends(a, b) && Extends(b, c)
      ensures Extends(a, c)
    {
      forall k | k in c && (k !in a || c[k] != a[k])
        ensures k == sha256(c[k])
      {
        if k in b && c[k] == b[k] {
          assert k !in a || b[k] != a[k];
        }
      }
    }

    /** Two puts write only their own two records. */
    lemma PutTwiceWroteOnly(m: map<Bytes, Bytes>, a: Bytes, b: Bytes)
      ensures WroteOnly(m, Put(Put(m, a), b), Ok(a), Ok(b))
    {
    }

    /** The node `s` describes is stored under `s.pointer`, and `s.value` is its encoding. */
    predicate Persisted(s: Stored)
      reads this, s.node
    {
      && s.pointer == sha256(s.value)
      && s.pointer in db && db[s.pointer] == s.value
      && NodeCodec.Encode(s.node.Contents()) == Ok(s.value)
    }

    /** The store holds the root's bytes under `p`. */
    predicate RootStored(p: Digest)
      reads this, root
    {
      && NodeCodec.Encode(root.Contents()).Ok?
      && p == sha256(NodeCodec.Encode(root.Contents()).value)
      && p in db && db[p] == NodeCodec.Encode(root.Contents()).value
    }

    /** The outcome of `_putNode(node)` for a node holding `c`. */
    twostate predicate PutOutcome(node: Node, c: NodeSpec.Contents, new r: Result<Stored>)
      reads this
    {
      match NodeCodec.Encode(c)
      case Err(e) => r == Err(e) && db == old(db)
      case Ok(b) =>
        && (r.Ok? ==> r.value == Stored(node, sha256(b), b) && db == Put(old(db), b))
        && (r.Err? ==> r.error == StoreFailure && db == old(db))
    }

    /**
     * The outcome of `_splitNode` on a parentless node holding `c`: both halves
     * are stored, left then right, then a fresh root with the middle key and
     * the two digests, which becomes `tree.root`.
     */
    twostate predicate SplitAsRoot(c: NodeSpec.Contents, new r: Result<Stored>)
      reads this, root
    {
      var h := NodeSpec.Split(c, branchingFactor).value;
      && (r.Ok? ==>
        && h.middleKey.Some?
        && NodeCodec.Encode(h.left).Ok? && NodeCodec.Encode(h.right).Ok?
        && var bl, br := NodeCodec.Encode(h.left).value, NodeCodec.Encode(h.right).value;
        && r.value.node == root && fresh(root) && root.parent == null && root.pointer == None
        && root.Contents() == NodeSpec.Contents([h.middleKey.value], [], [sha256(bl), sha256(br)])
        && Persisted(r.value)
        && db == Put(Put(Put(old(db), bl), br), r.value.value))
      && (r.Err? ==> root == old(root) && WroteOnly(old(db), db, NodeCodec.Encode(h.left), NodeCodec.Encode(h.right)))
    }

    // ------------------------------------------------------------ the store

    /** `db.get`: a missing record is NotFound; an undefined key or an I/O error is a failure. */
    method StoreGet(pointer: Option<Bytes>) returns (r: Result<Bytes>)
      ensures r.Ok? ==> pointer.Some? && pointer.value in db && r.value == db[pointer.value]
      ensures pointer.Some? && pointer.value !in db ==> r.Err?
      ensures r.Err? ==> r.error == StoreFailure || (r.error == NotFound && pointer.Some? && pointer.value !in db)
    {
      var fails: bool := *;
      if pointer.None? || fails {
        r := Err(StoreFailure);
      } else if pointer.value !in db {
        r := Err(NotFound);
      } else {
        r := Ok(db[pointer.value]);
      }
    }

    /** `db.put`: either the record is written or an I/O error is reported and nothing changes. */
    method StorePut(key: Bytes, value: Bytes) returns (r: Result<()>)
      modifies this`db
      ensures r.Ok? ==> db == old(db)[key := value]
      ensures r.Err? ==> r == Err(StoreFailure) && db == old(db)
    {
      var fails: bool := *;
      if fails {
        r := Err(StoreFailure);
      } else {
        db := db[key := value];
        r := Ok(());
      }
    }

    // ------------------------------------------------------------ descent

    /**
     * `_searchLeaf`: a leaf is returned as it is; otherwise the child the key
     * belongs to is fetched and decoded, with the current node as its parent
     * and the fetched pointer as its pointer, until a leaf is reached.
     */
    method SearchLeaf(key: Bytes, node: Node) returns (r: Result<Node>)
      ensures r.Ok? ==> r.value.IsLeaf()
      ensures node.IsLeaf() ==> r == Ok(node)
      ensures !node.IsLeaf() ==>
        match NodeSpec.LocatePointer(node.Contents(), key)
        case Err(e) => r == Err(e)
        case Ok(p) =>
          && (r.Ok? ==>
            && p.Some? && p.value in db
            && fresh(r.value) && r.value.parent == node && r.value.pointer == p
            && NodeCodec.Decode(db[p.value], keySize, valueSize) == Ok(r.value.Contents()))
          && (r.Err? ==>
            || r.error == StoreFailure
            || (p.Some? && p.value !in db && r.error == NotFound)
            || (p.Some? && p.value in db && NodeCodec.Decode(db[p.value], keySize, valueSize) == Err(r.error)))
    {
      var current := node;
      while !current.IsLeaf()
        invariant current == node || (
          && current.IsLeaf() && fresh(current) && current.parent == node
          && var p := NodeSpec.LocatePointer(node.Contents(), key);
          && p.Ok? && p.value.Some? && p.value.value in db && current.pointer == p.value
          && NodeCodec.Decode(db[p.value.value], keySize, valueSize) == Ok(current.Contents()))
        decreases if current.IsLeaf() then 0 else 1
      {
        var pointer :- current.LocatePointer(key);
        var buffer :- StoreGet(pointer);
        var next :- Node.FromBuffer(buffer, keySize, valueSize, PointerSize, current, pointer);
        current := next;
      }
      r := Ok(current);
    }

    // ------------------------------------------------------------ persisting

    /** `_putNode`: the node's bytes are stored under their digest, which is the node's new pointer. */
    method PutNode(node: Node) returns (r: Result<Stored>)
      modifies this`db
      ensures PutOutcome(node, node.Contents(), r)
      ensures Extends(old(db), db)
      ensures r.Ok? ==> Persisted(r.value)
    {
      var value :- node.ToBuffer();
      var key := sha256(value);
      var _ :- StorePut(key, value);
      r := Ok(Stored(node, key, value));
    }

    /**
     * `_putNodes` over [left, right]: both puts are issued, left first, and a
     * failure of either is reported once both have answered. A `toBuffer` that
     * throws (the only source of a TypeError here) escapes before the next put.
     */
    method PutNodes(left: Node, right: Node) returns (r: Result<(Stored, Stored)>)
      modifies this`db
      ensures Extends(old(db), db)
      ensures NodeCodec.Encode(left.Contents()).Err? ==> r == Err(TypeError) && db == old(db)
      ensures NodeCodec.Encode(right.Contents()).Err? ==> r == Err(TypeError)
      ensures r.Ok? ==>
        && NodeCodec.Encode(left.Contents()).Ok? && NodeCodec.Encode(right.Contents()).Ok?
        && var bl, br := NodeCodec.Encode(left.Contents()).value, NodeCodec.Encode(right.Contents()).value;
        && r.value == (Stored(left, sha256(bl), bl), Stored(right, sha256(br), br))
        && db == Put(Put(old(db), bl), br)
      ensures r.Err? ==> WroteOnly(old(db), db, NodeCodec.Encode(left.Contents()), NodeCodec.Encode(right.Contents()))
    {
      var first := PutNode(left);
      if first == Err(TypeError) {
        return Err(TypeError);
      }
      ghost var middle := db;
      var second := PutNode(right);
      ExtendsTransitive(old(db), middle, db);
      if second.Err? {
        return Err(second.error);
      }
      if first.Err? {
        return Err(first.error);
      }
      r := Ok((first.value, second.value));
    }

    // ------------------------------------------------------------ splitting

    /**
     * `_propagateSplitToParent`: the parent of the split node loses the old
     * pointer and gains the middle key; it is split in turn when it holds more
     * than B - 1 keys, and stored otherwise.
     */
    method PropagateSplitToParent(prevNode: Node, newLeft: Stored, newRight: Stored, middleKey: Option<Bytes>)
      returns (r: Result<Stored>)
      requires Valid()
      requires prevNode.parent != null && prevNode.parent.parent == null
      requires prevNode.pointer.Some? && |prevNode.keys| > 0
      modifies this, prevNode.parent
      decreases 1
      ensures Valid() && Extends(old(db), db)
      ensures r.Ok? ==> Persisted(r.value) && r.value.node.parent == null
      ensures r.Ok? ==> r.value.node == prevNode.parent || fresh(r.value.node)
      ensures
        var u := NodeSpec.Unlink(old(prevNode.parent.Contents()), prevNode.keys[0], prevNode.pointer.value);
        var p := Propagated(old(prevNode.parent.Contents()), prevNode.keys[0], prevNode.pointer.value,
                            middleKey, newLeft.pointer, newRight.pointer);
        match p
        case Err(e) =>
          && r == Err(e) && db == old(db) && root == old(root)
          && prevNode.parent.Contents() == (if u.Ok? then u.value else old(prevNode.parent.Contents()))
        case Ok(c) =>
          && prevNode.parent.Contents() == c
          && (|c.keys| > MaxLeafSize() ==> SplitAsRoot(c, r))
          && (|c.keys| <= MaxLeafSize() ==> PutOutcome(prevNode.parent, c, r) && root == old(root))
    {
      var parent := prevNode.parent;
      var _ :- parent.UnlinkPointer(prevNode.keys[0], prevNode.pointer.value);
      if middleKey.None? {
        return Err(TypeError);
      }
      var _ :- parent.PromoteKey(middleKey.value, newLeft.pointer, newRight.pointer);
      if parent.Size() > MaxLeafSize() {
        r := SplitNode(parent);
      } else {
        r := PutNode(parent);
      }
    }

    /**
     * `_splitNode`: the node's halves are stored; a node with a parent hands
     * the split on to it, a parentless one gets a fresh root above the halves.
     */
    method SplitNode(node: Node) returns (r: Result<Stored>)
      requires Valid()
      requires node.parent != null ==> node.parent.parent == null && node.pointer.Some? && |node.keys| > 0
      modifies this, node.parent
      decreases if node.parent == null then 0 else 2
      ensures Valid() && Extends(old(db), db)
      ensures r.Ok? ==> Persisted(r.value) && r.value.node.parent == null
      ensures r.Ok? ==> r.value.node == node.parent || fresh(r.value.node)
      ensures node.parent == null ==> SplitAsRoot(old(node.Contents()), r)
      ensures r.Err? ==> root == old(root)
      ensures node.parent != null && r.Ok? ==>
        var h := NodeSpec.Split(old(node.Contents()), branchingFactor).value;
        && NodeCodec.Encode(h.left).Ok? && NodeCodec.Encode(h.right).Ok?
        && Propagated(old(node.parent.Contents()), node.keys[0], node.pointer.value, h.middleKey,
                      sha256(NodeCodec.Encode(h.left).value), sha256(NodeCodec.Encode(h.right).value))
           == Ok(node.parent.Contents())
    {
      var split := node.Split(branchingFactor);
      var halves := split.value;
      var results :- PutNodes(halves.left, halves.right);
      if node.parent != null {
        r := PropagateSplitToParent(node, results.0, results.1, halves.middleKey);
      } else {
        PutTwiceWroteOnly(old(db), results.0.value, results.1.value);
        ghost var halvesStored := db;
        r := RaiseRoot(halves.middleKey, results.0, results.1);
        ExtendsTransitive(old(db), halvesStored, db);
      }
    }

    /**
     * The parentless branch of `_splitNode`: a fresh root holding the middle
     * key and the digests of the two stored halves is stored and becomes
     * `tree.root`.
     */
    method RaiseRoot(middleKey: Option<Bytes>, left: Stored, right: Stored) returns (r: Result<Stored>)
      modifies this
      ensures Extends(old(db), db)
      ensures middleKey.None? ==> r == Err(TypeError)
      ensures r.Ok? ==>
        && middleKey.Some? && r.value.node == root && fresh(root) && root.parent == null && root.pointer == None
        && root.Contents() == NodeSpec.Contents([middleKey.value], [], [left.pointer, right.pointer])
        && Persisted(r.value) && db == Put(old(db), r.value.value)
      ensures r.Err? ==> db == old(db) && root == old(root)
    {
      if middleKey.None? {
        return Err(TypeError); // the new root's `toBuffer` meets an undefined key
      }
      var rootNode := new Node([middleKey.value], [], [left.pointer, right.pointer], null, None);
      var result :- PutNode(rootNode);
      root := result.node;
      r := Ok(result);
    }

    // ------------------------------------------------------------ ascent

    /**
     * `_relinkNodeParentPointer`: a parentless node becomes `tree.root` and the
     * given pointer is the answer; otherwise the parent's slot for the node is
     * pointed at the new digest, the parent is stored, and the walk goes on
     * from the parent with its own new digest.
     */
    method RelinkNodeParentPointer(node: Node, pointer: Digest) returns (r: Result<Digest>)
      requires Valid()
      requires node.parent != null ==> node.parent.parent == null && node.pointer.Some? && |node.keys| > 0
      modifies this, node.parent
      decreases if node.parent == null then 0 else 1
      ensures Valid() && Extends(old(db), db)
      ensures node.parent == null ==> r == Ok(pointer) && root == node && db == old(db)
      ensures node.parent != null ==>
        match NodeSpec.Relink(old(node.parent.Contents()), node.keys[0], node.pointer.value, pointer)
        case Err(e) =>
          r == Err(e) && db == old(db) && root == old(root) && node.parent.pointers == old(node.parent.pointers)
        case Ok(c) =>
          && node.parent.Contents() == c
          && (r.Ok? ==> root == node.parent && RootStored(r.value) && db == Put(old(db), NodeCodec.Encode(c).value))
          && (r.Err? ==> root == old(root) && db == old(db))
    {
      if node.parent != null {
        var parent := node.parent;
        var _ :- parent.RelinkPointer(node.keys[0], node.pointer.value, pointer);
        var result :- PutNode(parent);
        ghost var stored := db;
        r := RelinkNodeParentPointer(result.node, result.pointer);
        ExtendsTransitive(old(db), stored, db);
      } else {
        root := node;
        r := Ok(pointer);
      }
    }

    // ------------------------------------------------------------ insertion

    /**
     * The branch of `_nodeInsert` for a leaf with room: the record goes in
     * place, the leaf is stored and the new digest is relinked up to the root.
     */
    method InsertIntoLeaf(leaf: Node, key: Bytes, value: Bytes) returns (r: Result<Digest>)
      requires Valid()
      requires leaf.parent != null ==> leaf.parent.parent == null && leaf.pointer.Some?
      modifies this, leaf`keys, leaf`values, leaf.parent
      ensures Valid() && Extends(old(db), db)
      ensures r.Ok? ==> RootStored(r.value)
      ensures leaf.Contents() == NodeSpec.Insert(old(leaf.Contents()), key, value).node
      ensures leaf.parent == null ==>
        && (r.Ok? ==>
              && root == leaf && r.value == sha256(NodeCodec.Encode(leaf.Contents()).value)
              && db == Put(old(db), NodeCodec.Encode(leaf.Contents()).value))
        && (r.Err? ==> root == old(root))
      ensures leaf.parent != null && r.Ok? ==>
        && root == leaf.parent && NodeCodec.Encode(leaf.Contents()).Ok?
        && NodeSpec.Relink(old(leaf.parent.Contents()), leaf.keys[0], leaf.pointer.value,
                           sha256(NodeCodec.Encode(leaf.Contents()).value)) == Ok(leaf.parent.Contents())
        && db == Put(Put(old(db), NodeCodec.Encode(leaf.Contents()).value), NodeCodec.Encode(leaf.parent.Contents()).value)
      ensures r.Err? ==> root == old(root)
      ensures leaf.parent == null && r.Err? ==> db == old(db)
      ensures leaf.parent != null && r.Err? ==>
        || db == old(db)
        || (NodeCodec.Encode(leaf.Contents()).Ok? && db == Put(old(db), NodeCodec.Encode(leaf.Contents()).value))
    {
      var _ := leaf.Insert(key, value);
      var result :- PutNode(leaf);
      ghost var stored := db;
      r := RelinkNodeParentPointer(leaf, result.pointer);
      ExtendsTransitive(old(db), stored, db);
    }

    /**
     * `_nodeInsert`: descend to the leaf for the key; a leaf holding at most
     * B - 1 keys takes the record in place, is stored and relinked up to the
     * root; a fuller one is split first and the insert starts again from the
     * node the split answered with. `rounds` bounds the restarts.
     */
    method NodeInsert(node: Node, key: Bytes, value: Bytes, rounds: nat) returns (r: Result<Digest>)
      requires Valid() && node.parent == null
      modifies this, node
      decreases rounds
      ensures Valid() && Extends(old(db), db)
      ensures r.Ok? ==> RootStored(r.value)
      ensures rounds == 0 ==> r == Err(RetryLimit)
      ensures rounds > 0 && old(node.IsLeaf()) && old(node.Size()) <= MaxLeafSize() ==>
        && node.Contents() == NodeSpec.Insert(old(node.Contents()), key, value).node
        && (r.Ok? ==>
              && root == node && r.value == sha256(NodeCodec.Encode(node.Contents()).value)
              && db == Put(old(db), NodeCodec.Encode(node.Contents()).value))
        && (r.Err? ==> root == old(root) && db == old(db))
      ensures rounds > 0 && !old(node.IsLeaf()) && r.Ok? ==>
        var p := NodeSpec.LocatePointer(old(node.Contents()), key);
        && p.Ok? && p.value.Some? && p.value.value in old(db)
        && var c := NodeCodec.Decode(old(db)[p.value.value], keySize, valueSize);
        && c.Ok?
        && (|c.value.keys| <= MaxLeafSize() ==>
              var leaf := NodeSpec.Insert(c.value, key, value).node;
              && root == node && NodeCodec.Encode(leaf).Ok?
              && NodeSpec.Relink(old(node.Contents()), leaf.keys[0], p.value.value,
                                 sha256(NodeCodec.Encode(leaf).value)) == Ok(node.Contents())
              && db == Put(Put(old(db), NodeCodec.Encode(leaf).value), NodeCodec.Encode(node.Contents()).value))
    {
      if rounds == 0 {
        return Err(RetryLimit);
      }
      var leaf :- SearchLeaf(key, node);
      if leaf.Size() <= MaxLeafSize() {
        r := InsertIntoLeaf(leaf, key, value);
      } else {
        var result :- SplitNode(leaf);
        ghost var split := db;
        r := NodeInsert(result.node, key, value, rounds - 1);
        ExtendsTransitive(old(db), split, db);
      }
    }

    /**
     * `insert`: a key that is not `keySize` bytes or a value that is not
     * `valueSize` bytes fails its assertion before the store is touched;
     * otherwise the record goes in from the root. The answer is the digest
     * the new root is stored under.
     */
    method Insert(key: Bytes, value: Bytes) returns (r: Result<Digest>)
      requires Valid()
      modifies this, root
      ensures Valid() && Extends(old(db), db)
      ensures |key| != keySize || |value| != valueSize ==>
        && r.Err? && r.error.AssertionError?
        && db == old(db) && root == old(root) && unchanged(root)
      ensures r.Ok? ==> |key| == keySize && |value| == valueSize && RootStored(r.value)
      ensures |key| == keySize && |value| == valueSize && old(root.IsLeaf()) && old(root.Size()) <= MaxLeafSize() ==>
        && old(root).Contents() == NodeSpec.Insert(old(root.Contents()), key, value).node
        && (r.Ok? ==> root == old(root))
      ensures |key| == keySize && |value| == valueSize && !old(root.IsLeaf()) && r.Ok? ==>
        var p := NodeSpec.LocatePointer(old(root.Contents()), key);
        && p.Ok? && p.value.Some? && p.value.value in old(db)
        && var c := NodeCodec.Decode(old(db)[p.value.value], keySize, valueSize);
        && c.Ok?
        && (|c.value.keys| <= MaxLeafSize() ==>
              var leaf := NodeSpec.Insert(c.value, key, value).node;
              && root == old(root) && NodeCodec.Encode(leaf).Ok?
              && NodeSpec.Relink(old(root.Contents()), leaf.keys[0], p.value.value,
                                 sha256(NodeCodec.Encode(leaf).value)) == Ok(root.Contents())
              && db == Put(Put(old(db), NodeCodec.Encode(leaf).value), NodeCodec.Encode(root.Contents()).value))
    {
      if |key| != keySize {
        return Err(AssertionError("key is expected to be a buffer with size"));
      }
      if |value| != valueSize {
        return Err(AssertionError("value is expected to be a buffer with size"));
      }
      r := NodeInsert(root, key, value, MaxRounds);
    }
  }
}
