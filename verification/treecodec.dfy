/** The tree codec of src/main.ts: `encodeTree` pairs every leaf hash with
    its position, and `decodeTree` puts each wire leaf's hash back into the
    slot its decoded index names, in a JavaScript array that grows on
    demand. The Merkle tree library is outside the model: the tree enters
    as its root and leaf hex strings, and the decoder's result is the slot
    array before it is handed to the library. */
module TreeCodec {
  import opened Wrappers
  import opened Hex
  import opened LimbCodec

  /** A `Leaf` message: both fields are optional on the wire. */
  datatype WireLeaf = WireLeaf(leafHash: Option<Limbs>, index: Option<Limbs>)

  /** A `Tree` message. */
  datatype WireTree = WireTree(root: Option<Limbs>, leaves: seq<WireLeaf>)

  /** The wire leaf `encodeTree` makes for the hash at position `i`: the
      hash is encoded first, then the index. Every position a JavaScript
      array can hold is below 2^32, so the leaf encodes exactly when its
      hash does, and its index decodes back to the position. */
  function EncodeLeaf(hash: string, i: nat): (r: Result<WireLeaf, Error>)
    ensures r.Success? <==> EncodeBytes32(hash).Success? && EncodeUint256(i).Success?
    ensures i < 0x1_0000_0000 ==> (r.Success? <==> EncodeBytes32(hash).Success?)
    ensures r.Success? ==> r.value.leafHash == Some(EncodeBytes32(hash).value)
    ensures r.Success? ==> r.value.index == Some(EncodeUint256(i).value)
    ensures r.Success? && i < 0x1_0000_0000 ==> r.value.index.Some? && DecodeUint256(r.value.index.value) == i
  {
    var leafHash :- EncodeBytes32(hash);
    var leafIndex :- EncodeUint256(i);
    if i < 0x1_0000_0000 then
      DecodeLowLimb(i);
      Success(WireLeaf(Some(leafHash), Some(leafIndex)))
    else
      Success(WireLeaf(Some(leafHash), Some(leafIndex)))
  }

  /** The `reduce` of `encodeTree`: the callback is applied to every hash
      with its position, in order, and its result pushed; the first
      exception escapes. A push onto an array that already holds
      2^32 - 1 elements throws a RangeError, so at most that many leaves
      come out. */
  function ReduceLeaves(encodeLeaf: (string, nat) -> Result<WireLeaf, Error>, hashes: seq<string>): (r: Result<seq<WireLeaf>, Error>)
    ensures r.Success? ==> |r.value| == |hashes| <= MAX_ARRAY_LENGTH
    decreases |hashes|
  {
    if |hashes| == 0 then
      Success([])
    else
      var n := |hashes| - 1;
      var front :- ReduceLeaves(encodeLeaf, hashes[..n]);
      var leaf :- encodeLeaf(hashes[n], n);
      if |front| >= MAX_ARRAY_LENGTH then Failure(RangeError) else Success(front + [leaf])
  }

  /** Leaf `i` of a successful reduction is the callback's result for hash
      `i` at position `i`; the reduction succeeds exactly when there are at
      most 2^32 - 1 hashes and the callback succeeds on every one. */
  lemma {:induction false} ReduceLeavesSpec(encodeLeaf: (string, nat) -> Result<WireLeaf, Error>, hashes: seq<string>)
    ensures ReduceLeaves(encodeLeaf, hashes).Success? <==>
      |hashes| <= MAX_ARRAY_LENGTH && forall i :: 0 <= i < |hashes| ==> encodeLeaf(hashes[i], i).Success?
    ensures ReduceLeaves(encodeLeaf, hashes).Success? ==> forall i :: 0 <= i < |hashes| ==>
      encodeLeaf(hashes[i], i).Success? && ReduceLeaves(encodeLeaf, hashes).value[i] == encodeLeaf(hashes[i], i).value
    decreases |hashes|
  {
    if |hashes| > 0 {
      var n := |hashes| - 1;
      var front := hashes[..n];
      ReduceLeavesSpec(encodeLeaf, front);
      assert forall i :: 0 <= i < n ==> front[i] == hashes[i];
      var r := ReduceLeaves(encodeLeaf, hashes);
      if r.Success? {
        var fr := ReduceLeaves(encodeLeaf, front).value;
        assert r.value == fr + [encodeLeaf(hashes[n], n).value];
        forall i | 0 <= i < |hashes|
          ensures encodeLeaf(hashes[i], i).Success? && r.value[i] == encodeLeaf(hashes[i], i).value
        {
          if i < n {
            assert r.value[i] == fr[i];
          }
        }
      } else if !ReduceLeaves(encodeLeaf, front).Success? {
        if n <= MAX_ARRAY_LENGTH {
          var i :| 0 <= i < n && !encodeLeaf(front[i], i).Success?;
        }
      } else if !encodeLeaf(hashes[n], n).Success? {
      } else {
        assert n >= MAX_ARRAY_LENGTH;
      }
    }
  }

  /** The leaf list `encodeTree` builds. */
  function EncodeLeaves(hashes: seq<string>): (r: Result<seq<WireLeaf>, Error>)
    ensures r.Success? ==> |r.value| == |hashes| <= MAX_ARRAY_LENGTH
  {
    ReduceLeaves(EncodeLeaf, hashes)
  }

  /** `encodeTree`: the root is encoded first, then every leaf in order; the
      first exception escapes. */
  function EncodeTree(rootHex: string, hashes: seq<string>): (r: Result<WireTree, Error>)
    ensures r.Success? <==> EncodeBytes32(rootHex).Success? && EncodeLeaves(hashes).Success?
    ensures r.Success? ==> r.value.root == Some(EncodeBytes32(rootHex).value)
    ensures r.Success? ==> |r.value.leaves| == |hashes| <= MAX_ARRAY_LENGTH
  {
    var root :- EncodeBytes32(rootHex);
    var leaves :- EncodeLeaves(hashes);
    Success(WireTree(Some(root), leaves))
  }

  /** One more than the largest array index, and the largest array length:
      `new Array(n)` and a `push` that would pass it throw a RangeError, and
      a write at a larger integer key creates an ordinary property instead
      of an element. */
  const MAX_ARRAY_LENGTH: nat := 0xFFFF_FFFF

  predicate IsArrayIndex(i: nat) {
    i < MAX_ARRAY_LENGTH
  }

  /** `new Array(n)`: `n` empty slots. */
  function Holes(n: nat): (h: seq<Option<string>>)
    ensures |h| == n
    ensures forall i :: 0 <= i < n ==> h[i] == None
  {
    seq(n, _ => None)
  }

  /** A leaf that passes the `!leaf.index || !leaf.leafHash` check. */
  predicate Complete(w: WireLeaf) {
    w.index.Some? && w.leafHash.Some?
  }

  predicate AllComplete(ws: seq<WireLeaf>) {
    forall k :: 0 <= k < |ws| ==> Complete(ws[k])
  }

  /** The slot a leaf is written to. `Number(...)` of the decoded index is
      exact below 2^53, and every larger value is no array index either, so
      the conversion is modelled by `IsArrayIndex` alone. */
  function Position(decode: Limbs -> nat, w: WireLeaf): nat
    requires w.index.Some?
  {
    decode(w.index.value)
  }

  /** What is written: `toString(16)` of the decoded hash. */
  function Entry(decode: Limbs -> nat, w: WireLeaf): string
    requires w.leafHash.Some?
  {
    NatToHex(decode(w.leafHash.value))
  }

  /** `acc[i] = v`: an array index inside the array overwrites its slot, one
      beyond the end grows the array with holes up to it, and any larger
      key leaves the elements alone. */
  function Store(slots: seq<Option<string>>, i: nat, v: string): (r: seq<Option<string>>)
    ensures IsArrayIndex(i) ==> |r| == (if i < |slots| then |slots| else i + 1) && r[i] == Some(v)
    ensures !IsArrayIndex(i) ==> r == slots
    ensures forall j :: 0 <= j < |r| && j != i ==> r[j] == (if j < |slots| then slots[j] else None)
  {
    if !IsArrayIndex(i) then slots
    else if i < |slots| then slots[i := Some(v)]
    else slots + Holes(i - |slots|) + [Some(v)]
  }

  /** The `reduce` of `decodeTree`, leaves taken in wire order, starting
      from `init`: the first leaf without `index` or `leafHash` throws. */
  function Place(decode: Limbs -> nat, init: seq<Option<string>>, ws: seq<WireLeaf>): (r: Result<seq<Option<string>>, Error>)
    ensures r.Success? <==> AllComplete(ws)
    ensures r.Failure? ==> r.error == MissingLeafField
    decreases |ws|
  {
    if |ws| == 0 then
      Success(init)
    else
      var n := |ws| - 1;
      assert forall k :: 0 <= k < n ==> ws[..n][k] == ws[k];
      var acc :- Place(decode, init, ws[..n]);
      var leaf := ws[n];
      if leaf.index.None? || leaf.leafHash.None? then
        Failure(MissingLeafField)
      else
        Success(Store(acc, Position(decode, leaf), Entry(decode, leaf)))
  }

  /** `decodeTree` up to the hand-over to the Merkle tree library, with the
      index decoder as a parameter. The array is allocated before any leaf
      is looked at. The root field is not read. */
  function DecodeLeavesWith(decode: Limbs -> nat, t: WireTree): (r: Result<seq<Option<string>>, Error>)
    ensures r.Success? <==> |t.leaves| <= MAX_ARRAY_LENGTH && AllComplete(t.leaves)
    ensures |t.leaves| > MAX_ARRAY_LENGTH ==> r == Failure(RangeError)
    ensures |t.leaves| <= MAX_ARRAY_LENGTH && !AllComplete(t.leaves) ==> r == Failure(MissingLeafField)
  {
    if |t.leaves| > MAX_ARRAY_LENGTH then Failure(RangeError)
    else Place(decode, Holes(|t.leaves|), t.leaves)
  }

  /** `decodeTree` as written, with the 16-bit shift decoder. */
  function DecodeTree(t: WireTree): (r: Result<seq<Option<string>>, Error>)
    ensures r.Success? <==> |t.leaves| <= MAX_ARRAY_LENGTH && AllComplete(t.leaves)
    ensures |t.leaves| > MAX_ARRAY_LENGTH ==> r == Failure(RangeError)
    ensures |t.leaves| <= MAX_ARRAY_LENGTH && !AllComplete(t.leaves) ==> r == Failure(MissingLeafField)
  {
    DecodeLeavesWith(DecodeUint256, t)
  }
}
