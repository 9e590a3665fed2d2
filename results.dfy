/** Absent values, results and the errors the node and tree code raise or pass back. */
module Results {

  /** `None` is JavaScript's `undefined`, the value of an array read past its end. */
  datatype Option<+T> = None | Some(value: T)

  datatype Error =
    | AssertionError(message: string) // a failed `assert(...)` in the source
    | KeyNotFound                     // 'Key not found: <hex>' from searchMatch
    | DuplicateKey                    // 'Duplicate key exists' from searchLowerBound
    | KeyAlreadyExists                // 'Key already exists' from promoteKey
    | PointerNotConnected             // 'Pointer not connected to key' from unlink/relink
    | UnknownNodeType                 // 'Unknown node type' from fromBuffer
    | TypeError                       // a method called on `undefined`, or `Node._sliceNodeBuffer`
    | NotFound                        // the store has no record under the pointer
    | StoreFailure                    // an I/O error reported by the store
    | RetryLimit                      // the bound on split-and-retry rounds was reached

  /** A value, or the error the source throws or hands to its callback. */
  datatype Result<+T> = Ok(value: T) | Err(error: Error) {

    predicate IsFailure() {
      Err?
    }

    function PropagateFailure<U>(): Result<U>
      requires Err?
    {
      Err(error)
    }

    function Extract(): T
      requires Ok?
    {
      value
    }
  }
}

/** The JavaScript array operations the node code uses, on sequences. */
module Arrays {
  import opened Results

  /** Reading `s[i]`: `undefined` past the end. */
  function At<T>(s: seq<T>, i: nat): (r: Option<T>)
    ensures r.Some? <==> i < |s|
    ensures r.Some? ==> r.value == s[i]
  {
    if i < |s| then Some(s[i]) else None
  }

  /** `s.slice(begin, end)` for non-negative bounds: both are clamped to the length. */
  function Slice<T>(s: seq<T>, begin: nat, end: nat): (r: seq<T>)
    ensures begin <= end <= |s| ==> r == s[begin..end]
    ensures end <= begin ==> r == []
    ensures begin <= |s| <= end ==> r == s[begin..]
    ensures |s| <= begin ==> r == []
  {
    var b := if begin < |s| then begin else |s|;
    var e := if end < |s| then end else |s|;
    if b < e then s[b..e] else []
  }

  /** `s.splice(pos, 0, x)`: a start past the end is clamped to the length. */
  function InsertAt<T>(s: seq<T>, pos: nat, x: T): (r: seq<T>)
    ensures |r| == |s| + 1
    ensures pos <= |s| ==> r == s[..pos] + [x] + s[pos..]
    ensures pos >= |s| ==> r == s + [x]
  {
    if pos <= |s| then s[..pos] + [x] + s[pos..] else s + [x]
  }

  /** `s.splice(pos, 1)` for an index inside the array. */
  function RemoveAt<T>(s: seq<T>, pos: nat): (r: seq<T>)
    requires pos < |s|
    ensures |r| == |s| - 1
    ensures multiset(r) + multiset{s[pos]} == multiset(s)
    ensures forall j :: 0 <= j < |r| ==> r[j] == if j < pos then s[j] else s[j + 1]
  {
    assert s == s[..pos] + [s[pos]] + s[pos+1..];
    s[..pos] + s[pos+1..]
  }
}
