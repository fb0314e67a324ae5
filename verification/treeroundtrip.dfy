/** What `encodeTree` followed by `decodeTree` gives back: one wire leaf per
    leaf hash, in order, carrying its position as index; decoding puts each
    hash's decoded value back into its own slot, whatever order the wire
    leaves arrive in. */
module TreeRoundTrip {
  import opened Wrappers
  import opened Hex
  import opened LimbCodec
  import opened LimbLaws
  import opened TreeCodec
  import opened TreeLaws

  /** Leaf `i` of an encoded tree is hash `i` with index `i`. */
  lemma EncodeTreeLeaves(rootHex: string, hashes: seq<string>)
    requires EncodeTree(rootHex, hashes).Success?
    ensures forall i :: 0 <= i < |hashes| ==> EncodeBytes32(hashes[i]).Success? && EncodeUint256(i).Success?
    ensures forall i :: 0 <= i < |hashes| ==>
      EncodeTree(rootHex, hashes).value.leaves[i] == WireLeaf(Some(EncodeBytes32(hashes[i]).value), Some(EncodeUint256(i).value))
  {
    var leaves := EncodeTree(rootHex, hashes).value.leaves;
    ReduceLeavesSpec(EncodeLeaf, hashes);
    assert leaves == ReduceLeaves(EncodeLeaf, hashes).value;
  }

  /** `encodeTree` succeeds exactly when the root and every leaf hash
      encode and the leaves fit a JavaScript array: every position below
      2^32 - 1 encodes. */
  lemma EncodeTreeSucceeds(rootHex: string, hashes: seq<string>)
    ensures EncodeTree(rootHex, hashes).Success? <==>
      && EncodeBytes32(rootHex).Success?
      && |hashes| <= MAX_ARRAY_LENGTH
      && forall i :: 0 <= i < |hashes| ==> EncodeBytes32(hashes[i]).Success?
  {
    ReduceLeavesSpec(EncodeLeaf, hashes);
    if |hashes| <= MAX_ARRAY_LENGTH {
      forall i | 0 <= i < |hashes|
        ensures EncodeLeaf(hashes[i], i).Success? <==> EncodeBytes32(hashes[i]).Success?
      {
      }
    }
  }

  /** The leaves of an encoded tree name their own positions under the
      16-bit shift decoder. */
  lemma EncodedSelfIndexed(rootHex: string, hashes: seq<string>)
    requires EncodeTree(rootHex, hashes).Success?
    ensures AllComplete(EncodeTree(rootHex, hashes).value.leaves)
    ensures SelfIndexed(DecodeUint256, EncodeTree(rootHex, hashes).value.leaves)
  {
    var leaves := EncodeTree(rootHex, hashes).value.leaves;
    EncodeTreeLeaves(rootHex, hashes);
    forall k | 0 <= k < |leaves|
      ensures Complete(leaves[k]) && Position(DecodeUint256, leaves[k]) == k
    {
      DecodeEncodeSmall(k);
    }
  }

  /** `decodeTree` of an encoded tree (at most 2^32 - 1 leaves): exactly
      as many slots as leaves, no hole, and slot `i` holds the hex of leaf
      hash `i` as the limb decoder reads it back. */
  lemma TreeRoundTrip(rootHex: string, hashes: seq<string>)
    requires EncodeTree(rootHex, hashes).Success?
    ensures DecodeTree(EncodeTree(rootHex, hashes).value).Success?
    ensures |DecodeTree(EncodeTree(rootHex, hashes).value).value| == |hashes|
    ensures forall i :: 0 <= i < |hashes| ==>
      && EncodeBytes32(hashes[i]).Success?
      && DecodeTree(EncodeTree(rootHex, hashes).value).value[i] == Some(NatToHex(DecodeUint256(EncodeBytes32(hashes[i]).value)))
  {
    var t := EncodeTree(rootHex, hashes).value;
    EncodeTreeLeaves(rootHex, hashes);
    EncodedSelfIndexed(rootHex, hashes);
    DecodeSelfIndexed(DecodeUint256, t);
  }

  /** Any reordering of an encoded tree's wire leaves decodes to the same
      array: the indices are distinct. */
  lemma EncodedTreeOrderIndependent(rootHex: string, hashes: seq<string>, t': WireTree)
    requires EncodeTree(rootHex, hashes).Success?
    requires multiset(t'.leaves) == multiset(EncodeTree(rootHex, hashes).value.leaves)
    ensures DecodeTree(t') == DecodeTree(EncodeTree(rootHex, hashes).value)
  {
    var t := EncodeTree(rootHex, hashes).value;
    EncodedSelfIndexed(rootHex, hashes);
    SelfIndexedConsistent(DecodeUint256, t.leaves);
    DecodeLeavesOrderIndependent(DecodeUint256, t, t');
  }
}
