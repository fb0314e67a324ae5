# spite-wire limb and tree codec

A model of the wire codec in `src/main.ts` of spite-wire. It covers the two
layers of that codec.

The limb codec:
- `encodeUint256` and `encodeBytes32` render a BigInt with `toString(16)`,
  or take a hash's hex string.
- They left-pad the string with `'0'`, and `split256BitHexStringTo64Bit`
  cuts it into four 16-character windows.
- Each window is parsed with `BigInt('0x' + window)` into one 64-bit limb:
  `part4` from characters 0-15 down to `part1` from characters 48-63.
- `decodeUint256` reads absent limbs as 0 and ORs the limbs together after
  shifting them left.

The tree codec:
- `encodeTree` pairs every leaf hash with its position.
- `decodeTree` folds over the wire leaves. It throws on a leaf without
  `index` or `leafHash`. Otherwise it writes the `toString(16)` of the decoded
  hash into the slot the decoded index names, in an array pre-sized to the
  leaf count.

Modules:

| file | module | contents |
|---|---|---|
| `wrappers.dfy` | `Wrappers` | `Option` and `Result` |
| `jstext.dfy` | `JsText` | `padStart`, `substring` clamping, the white-space trimming of the BigInt string parser |
| `hex.dfy` | `Hex` | hex digits and their values; `toString(16)` and its inverse |
| `bits.dfy` | `Bits` | BigInt `<<` and `\|` on non-negative numbers |
| `limbcodec.dfy` | `LimbCodec` | the limb codec as written |
| `limblaws.dfy` | `LimbLaws` | what the limb codec does on each class of input |
| `treecodec.dfy` | `TreeCodec` | the tree codec; `decodeTree`'s fold takes the index decoder as a parameter |
| `treelaws.dfy` | `TreeLaws` | the layout of the fold's result, and its independence of leaf order |
| `treeroundtrip.dfy` | `TreeRoundTrip` | `encodeTree` followed by `decodeTree` |
| `findings.dfy` | `Findings` | the defects below, and the corrected codec built on the same fold |

The model keeps these behaviours of the code:
- `encodeUint256` and `encodeBytes32` pad the hex string to `64 - length`
  characters (lines 7 and 13). A string of at most 8 digits lands whole in
  `part1`. One of 9 to 15 or 49 to 63 digits is split at the wrong places.
  One of 16 to 48 digits leaves the last window empty and throws. See
  "Findings".
- Neither encoder checks its input's range. A value or hash of more than 64
  digits keeps only its first 64.
- `decodeTree` does not check the decoded index against the leaf count. A
  slot beyond the end grows the array with holes, and a later leaf with the
  same index overwrites an earlier one.
- An index that is no JavaScript array index (2^32 - 1 and above) writes an
  ordinary property. It leaves the elements alone.
- `push` onto an array of 2^32 - 1 elements throws a RangeError, and so does
  `new Array(n)` for 2^32 or more leaves.
- Leading zeros of a decoded hash are lost: slots hold `toString(16)` of its
  value.
- `decodeTree` never reads the root.

## Model

| member | source | states |
|---|---|---|
| JsText.PadStart | src/main.ts:7 | the padded string is `max(length, target)` long, ends with the input, and every added character is '0' |
| JsText.Substring | src/main.ts:20-23 | in-range indices give the plain slice; an end past the string is cut to the string; a start past it gives "" |
| JsText.TrimEnd | src/main.ts:20-23 | the result is a prefix of the input, does not end in white space, and only white space was removed |
| Hex.ToString16 | src/main.ts:6 | a non-negative value gives its canonical lower-case digits; a negative one gives '-' followed by the digits of its magnitude |
| Hex.NatToHex | src/main.ts:58 | the result is canonical (lower case, no leading zero) and parses back to the value |
| Hex.NatToHexOfHexValue | src/main.ts:58 | `toString(16)` of a canonical string's value is that string again |
| Hex.NatToHexLength | src/main.ts:6-7 | a value has at most `k` hex digits exactly when it is below 16^k |
| Hex.HexValueZeroDigits | src/main.ts:20-23 | only a run of '0' characters parses to 0 |
| Bits.Or | src/main.ts:49 | the OR is at least each operand and at most their sum |
| Bits.OrDisjoint | src/main.ts:49 | OR-ing a value below 2^k into a value shifted by k adds it |
| Bits.OrStackSum | src/main.ts:49 | four limbs, the lower three below 2^k, OR-ed after shifts by 3k, 2k and k read as a base-2^k number |
| LimbCodec.ParseHexBigInt | src/main.ts:20-23 | parsing succeeds exactly when the window, with trailing white space removed, is a non-empty run of hex digits; the result is the value of those digits, below 16^(digit count) and so within a 64-bit limb |
| LimbCodec.Window | src/main.ts:20-23 | a window is never longer than 16 characters |
| LimbCodec.Split | src/main.ts:18-25 | the split succeeds exactly when all four windows parse; its only error is SyntaxError |
| LimbCodec.Padded | src/main.ts:13 | up to 32 characters the string is padded to `64 - length`; beyond, it is left as it is |
| LimbCodec.EncodeBytes32 | src/main.ts:12-16 | every input of 16 to 48 characters throws SyntaxError; a hex string of at most 8 digits comes out whole in `part1` with the other three limbs 0; a success carries all four limbs |
| LimbCodec.EncodeUint256 | src/main.ts:5-10 | every negative value throws SyntaxError on its '-' sign; every value below 2^32 encodes to `part1 = value` and three zero limbs; for every value the result is the hash encoder's on `toString(16)` |
| LimbCodec.SplitOfHex | src/main.ts:18-25 | when the first 64 characters are hex digits and there are more than 48, every limb is the value of its own window |
| LimbCodec.SplitRejectsBadChar | src/main.ts:20-23 | a character among the first 64 that is neither a hex digit nor white space makes the split throw SyntaxError |
| LimbCodec.PaddedShort | src/main.ts:13 | a string of up to 32 characters gets `64 - 2 * length` zeros in front |
| LimbCodec.EncodeBytes32RejectsBadChar | src/main.ts:12-24 | a non-hex, non-space character among the first 64 makes `encodeBytes32` throw, whatever the length |
| LimbCodec.DecodeUint256 | src/main.ts:44-52 | the result is below 2^112; it is at least each limb shifted by 0, 16, 32 or 48 bits, and at most the sum of those |
| LimbLaws.EncodeBytes32FullWidth | src/main.ts:12-24 | a 64-digit hash is not padded; `part4`..`part1` are the values of digit groups 0-15 .. 48-63; read as base-2^64 digits they give the hash's value |
| LimbLaws.PaddedLong | src/main.ts:13 | a string of 32 characters or more is not padded |
| LimbLaws.EncodeBytes32Succeeds | src/main.ts:12-24 | for input without white space, encoding succeeds exactly when the length is outside 16..48 and the first 64 characters are hex digits |
| LimbLaws.SplitFirst64 | src/main.ts:20-23 | characters after the 64th never reach a window |
| LimbLaws.EncodeUint256Wide | src/main.ts:5-9 | a value of 2^256 or more encodes without error, to the limbs of its first 64 hex digits |
| LimbLaws.ShiftOrSum | src/main.ts:49 | with the lower three limbs below 2^k, the shift-by-k OR is the base-2^k number the limbs spell |
| LimbLaws.DecodeUint256Sum | src/main.ts:49 | when `part1`, `part2`, `part3` are below 2^16 the decoded value is `part4*2^48 + part3*2^32 + part2*2^16 + part1` |
| LimbLaws.DecodeUint256Low | src/main.ts:45-49 | absent and zero limbs both read as 0: with the upper three 0 the result is `part1`, so all-zero limbs decode to 0 |
| LimbLaws.DecodeEncodeSmall | src/main.ts:5-52 | every index below 2^32 survives `encodeUint256` then `decodeUint256` |
| LimbLaws.DecodeBytes32LowHash | src/main.ts:12-52 | a 64-digit hash decodes to its own value exactly when its first 48 digits are 0 |
| TreeCodec.EncodeLeaf | src/main.ts:31-36 | the leaf succeeds exactly when hash and index encode, and carries both encodings; for every position below 2^32 it succeeds exactly when the hash encodes, and its index decodes back to the position under `decodeUint256` |
| TreeCodec.ReduceLeaves | src/main.ts:30-39 | a successful reduction has one leaf per hash, and so at most 2^32 - 1 leaves |
| TreeCodec.ReduceLeavesSpec | src/main.ts:30-39 | the reduction succeeds exactly when there are at most 2^32 - 1 hashes, so that no `push` throws, and the callback succeeds on each; then leaf `i` is the callback's result for hash `i` at position `i` |
| TreeCodec.EncodeLeaves | src/main.ts:30-39 | one wire leaf per hash, at most 2^32 - 1 of them |
| TreeCodec.EncodeTree | src/main.ts:27-42 | success exactly when the root and all leaves encode; the root is the root hash's encoding and there are as many wire leaves as hashes, at most 2^32 - 1 |
| TreeCodec.Holes | src/main.ts:60 | `new Array(n)` has `n` empty slots |
| TreeCodec.Store | src/main.ts:58 | an array index overwrites its slot or grows the array with holes up to it; a larger key changes nothing; every other slot keeps its content |
| TreeCodec.Place | src/main.ts:55-60 | the fold succeeds exactly when every leaf has `index` and `leafHash`, and fails with the missing-field error otherwise |
| TreeCodec.DecodeLeavesWith | src/main.ts:54-60 | RangeError beyond 2^32 - 1 leaves, the missing-field error for an incomplete leaf, success otherwise |
| TreeCodec.DecodeTree | src/main.ts:54-63 | the same three outcomes for the 16-bit shift decoder |
| TreeLaws.PlaceSpec | src/main.ts:55-60 | placing complete leaves over any start array: covered, tight, untouched slots kept, last write wins, written slots filled |
| TreeLaws.Extent | src/main.ts:57-58 | one past every leaf slot that is an array index, and reached by one of them |
| TreeLaws.DecodeLeavesLayout | src/main.ts:55-60 | the result is `max(leaf count, largest slot + 1)` long, unwritten slots are empty, and the last leaf naming a slot decides it |
| TreeLaws.DecodeSelfIndexed | src/main.ts:55-60 | when every leaf names its own position, slot `k` holds leaf `k`'s entry and there are exactly as many slots as leaves |
| TreeLaws.PlaceOrderIndependent | src/main.ts:55-60 | any reordering of the same leaves places the same array, as long as leaves naming the same slot agree |
| TreeLaws.DecodeLeavesOrderIndependent | src/main.ts:54-60 | the decoder's result, RangeError or missing-field error is the same for every order of the wire leaves |
| TreeRoundTrip.EncodeTreeLeaves | src/main.ts:27-42 | leaf `i` of an encoded tree is hash `i` with index `i` |
| TreeRoundTrip.EncodeTreeSucceeds | src/main.ts:27-42 | encoding succeeds exactly when the root and every leaf hash encode and there are at most 2^32 - 1 leaves |
| TreeRoundTrip.EncodedSelfIndexed | src/main.ts:30-60 | the leaves of every encoded tree name their own positions |
| TreeRoundTrip.TreeRoundTrip | src/main.ts:27-60 | decoding an encoded tree gives exactly one slot per leaf, every slot filled, slot `i` holding `toString(16)` of what `decodeUint256` reads from hash `i`'s limbs |
| TreeRoundTrip.EncodedTreeOrderIndependent | src/main.ts:27-60 | any permutation of an encoded tree's wire leaves decodes to the same array |
| Findings.EncodeUint256MidRange | src/main.ts:7 | every value from 2^60 to below 2^192 throws SyntaxError |
| Findings.EncodeUint256MisplacesDigits | src/main.ts:7 | 2^32 encodes to limbs (0, 16, 0, 0), worth 16 * 2^64, and decodes to 2^20 |
| Findings.EncodeUint256Unpadded | src/main.ts:6-7 | every value from 2^192 to below 2^252 has 49 to 63 digits, encodes without error, and its limbs are worth at least 2^252, more than the value |
| Findings.EncodeBytes32MisplacesDigits | src/main.ts:13 | the nine-digit hash string of 2^32 encodes to limbs (0, 16, 0, 0), worth 16 * 2^64 |
| Findings.DecodeUint256ShiftDefect | src/main.ts:49 | the hash whose value is 2^64 decodes to 2^16 |
| Findings.EncodeBytes32Intended | src/main.ts:12-16 | with 64-character padding every hex string of at most 64 digits encodes, and its limbs are worth exactly its value; a longer string encodes as before |
| Findings.EncodeUint256Intended | src/main.ts:5-9 | with 64-character padding every value below 2^256 encodes, and its limbs are worth exactly the value; negatives still throw |
| Findings.DecodeUint256Intended | src/main.ts:44-52 | with 64-bit shift steps the decoded value is the limbs read as base-2^64 digits |
| Findings.DecodeBytes32Intended | src/main.ts:12-52 | with the corrected decoder every 64-digit hash comes back whole |
| Findings.EncodeLeafIntended | src/main.ts:31-36 | the corrected leaf succeeds exactly when hash and index encode, and carries both; for every position below 2^256 it succeeds exactly when the hash encodes, and its index limbs are worth the position |
| Findings.EncodeTreeIntended | src/main.ts:27-42 | the corrected tree encoder succeeds exactly when the root and the leaves encode, one wire leaf per hash |
| Findings.DecodeTreeIntended | src/main.ts:54-60 | the corrected decoder succeeds on the same trees as the original: at most 2^32 - 1 leaves, each with `index` and `leafHash` |
| Findings.IntendedTreeRoundTrip | src/main.ts:27-60 | with both corrections, every tree of hashes of at most 64 digits and at most 2^32 - 1 leaves decodes to one slot per leaf, slot `i` holding `toString(16)` of hash `i`'s value |

## Left out

- The `merkletreejs` tree, `getRoot`, `getLeaves` and `keccak256` are external library calls. The tree enters as its root hex string and the leaf hex strings. `decodeTree`'s result is the slot array before it is handed to `new MerkleTree`.
- The generated protobuf messages and their `create`, `toBinary` and `fromBinary`: `./tree` is not part of this model. `Uint256`/`Bytes32` are four optional 64-bit limbs, a `Leaf` has two optional fields, and the wire leaf order is arbitrary.
- `Buffer.toString('hex')`: hashes enter as hex strings.
- `Number(...)` of the decoded index is not modelled as a float conversion. The decoded index is below 2^112, and `Number` is exact below 2^53. Any larger result is still no array index, so `IsArrayIndex` on the exact value decides the write the same way.
- An ordinary property written for a key of 2^32 - 1 or more is invisible to the array's elements and is not kept.
- The random string generator and the `console.log` self-check at the end of the file are randomness, I/O and test glue.
- Strings are sequences of UTF-16 code units. Characters outside the Basic Multilingual Plane are not considered.
- EncodeBytes32Succeeds: the exact success condition is stated only for input without white space. Trailing white space inside a window is trimmed by the BigInt parser, which `ParseHexBigInt` models, but the lemma does not characterise it.
- DecodeUint256: its contract gives bounds, not the exact value, for every input. The exact value is stated by DecodeUint256Sum when the lower three limbs are below 2^16; overlapping limbs are left to the bounds.
- `getLeaves()` returns a JavaScript array, so a tree never has more than 2^32 - 1 leaves, and `ReduceLeaves` models the RangeError a further `push` would throw. The RangeError branch of `DecodeLeavesWith` (`new Array(n)` for 2^32 or more leaves) cannot be reached by any `Tree` whose `leaves` is a JavaScript array. The model keeps it so that the decoder is total.
- EncodeUint256Intended: the corrected encoder adds no range check. A value of 2^256 or more still keeps only its first 64 digits.
- EncodeBytes32Intended: the corrected encoder adds no length check either. A string of more than 64 digits still keeps only its first 64.

## Findings

| source | as written | input that shows it | evidently intended | confidence | as-written member | corrected member |
|---|---|---|---|---|---|---|
| src/main.ts:7 | `encodeUint256` pads the hex string to 64 minus its own length: a value of 9 to 15 or of 49 to 63 digits gets too few zeros, or none, and its digits land in the wrong limbs; one of 16 to 48 digits leaves the last window empty and throws | 2^32 has nine digits, is padded to 55 characters and encodes to limbs (0, 16, 0, 0), worth 16 * 2^64; 2^192 has 49 digits, is not padded, and its limbs are worth at least 2^252; 2^60 throws SyntaxError | pad to 64 characters: each of the four `uint64` limb fields is filled from one 16-character window, so only a 64-character string makes each limb one base-2^64 digit of the value | high; not executed | Findings.EncodeUint256MisplacesDigits | Findings.EncodeUint256Intended |
| src/main.ts:13 | `encodeBytes32` pads the hash string the same way, so a hash of 9 to 63 digits is mis-encoded or throws | the nine-digit string "100000000", worth 2^32, encodes to limbs (0, 16, 0, 0), worth 16 * 2^64 | pad to 64 characters, as for `encodeUint256` | medium (a 32-byte hash always has 64 digits, so only shorter strings reach the defect); not executed | Findings.EncodeBytes32MisplacesDigits | Findings.EncodeBytes32Intended |
| src/main.ts:49 | the limbs are shifted by 48, 32 and 16 bits, although each holds 64 bits, so they overlap and the result stays below 2^112 | the 64-digit hash with a single "1" at digit 47 has value 2^64 and decodes to 2^16 | shift by 192, 128 and 64 bits | high; not executed | Findings.DecodeUint256ShiftDefect | Findings.DecodeUint256Intended |
