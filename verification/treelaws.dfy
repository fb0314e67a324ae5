/** What `decodeTree`'s placement fold produces, for any index decoder:
    which slots hold what, which stay empty, how long the array gets, and
    that the order of the wire leaves does not matter when no two of them
    disagree about a slot. */
module TreeLaws {
  import opened Wrappers
  import opened LimbCodec
  import opened TreeCodec

  /** Some leaf of `ws` is written to slot `j`. */
  predicate Written(decode: Limbs -> nat, ws: seq<WireLeaf>, j: nat) {
    exists k :: 0 <= k < |ws| && ws[k].index.Some? && Position(decode, ws[k]) == j
  }

  /** No later leaf of `ws` goes to the slot leaf `k` goes to. */
  predicate LastWrite(decode: Limbs -> nat, ws: seq<WireLeaf>, k: nat)
    requires k < |ws| && ws[k].index.Some?
  {
    forall k' :: k < k' < |ws| && ws[k'].index.Some? ==> Position(decode, ws[k']) != Position(decode, ws[k])
  }

  /** Every leaf whose position is an array index lies inside `r`. */
  ghost predicate Covers(decode: Limbs -> nat, ws: seq<WireLeaf>, r: seq<Option<string>>)
    requires AllComplete(ws)
  {
    forall k :: 0 <= k < |ws| && IsArrayIndex(Position(decode, ws[k])) ==> Position(decode, ws[k]) < |r|
  }

  /** `r` is no longer than it has to be: as long as `init`, or ending at
      some leaf's slot. */
  ghost predicate Tight(decode: Limbs -> nat, init: seq<Option<string>>, ws: seq<WireLeaf>, r: seq<Option<string>>)
    requires AllComplete(ws)
  {
    |r| == |init| || exists k :: 0 <= k < |ws| && Position(decode, ws[k]) + 1 == |r|
  }

  /** A slot no leaf names keeps its initial content, or is a hole. */
  ghost predicate Untouched(decode: Limbs -> nat, init: seq<Option<string>>, ws: seq<WireLeaf>, r: seq<Option<string>>) {
    forall j :: 0 <= j < |r| && !Written(decode, ws, j) ==> r[j] == if j < |init| then init[j] else None
  }

  /** The last leaf written to a slot determines it. */
  ghost predicate LastWins(decode: Limbs -> nat, ws: seq<WireLeaf>, r: seq<Option<string>>)
    requires AllComplete(ws)
  {
    forall k :: 0 <= k < |ws| && IsArrayIndex(Position(decode, ws[k])) && LastWrite(decode, ws, k) && Position(decode, ws[k]) < |r| ==>
      r[Position(decode, ws[k])] == Some(Entry(decode, ws[k]))
  }

  /** Every slot some leaf names holds the entry of a leaf naming it. */
  ghost predicate Filled(decode: Limbs -> nat, ws: seq<WireLeaf>, r: seq<Option<string>>)
    requires AllComplete(ws)
  {
    forall j :: 0 <= j < |r| && Written(decode, ws, j) ==>
      exists k :: 0 <= k < |ws| && Position(decode, ws[k]) == j && r[j] == Some(Entry(decode, ws[k]))
  }

  /** The slot array `r` is what placing the complete leaves `ws` over
      `init` leaves behind: at least as long as `init` and no longer than an
      array can be, and `Covers`, `Tight`, `Untouched`, `LastWins` and
      `Filled` all hold. */
  ghost predicate Placed(decode: Limbs -> nat, init: seq<Option<string>>, ws: seq<WireLeaf>, r: seq<Option<string>>)
    requires AllComplete(ws)
  {
    && |init| <= |r| <= MAX_ARRAY_LENGTH
    && Covers(decode, ws, r)
    && Tight(decode, init, ws, r)
    && Untouched(decode, init, ws, r)
    && LastWins(decode, ws, r)
    && Filled(decode, ws, r)
  }

  lemma FrontComplete(ws: seq<WireLeaf>)
    requires |ws| > 0 && AllComplete(ws)
    ensures AllComplete(ws[..|ws| - 1])
    ensures forall k :: 0 <= k < |ws| - 1 ==> ws[..|ws| - 1][k] == ws[k]
  {
  }

  /** The fold places every complete leaf list, and the result is `Placed`. */
  lemma {:induction false} PlaceSpec(decode: Limbs -> nat, init: seq<Option<string>>, ws: seq<WireLeaf>)
    requires |init| <= MAX_ARRAY_LENGTH && AllComplete(ws)
    ensures Place(decode, init, ws).Success?
    ensures Placed(decode, init, ws, Place(decode, init, ws).value)
    decreases |ws|
  {
    if |ws| > 0 {
      var n := |ws| - 1;
      FrontComplete(ws);
      PlaceSpec(decode, init, ws[..n]);
      var r0 := Place(decode, init, ws[..n]).value;
      var r := Place(decode, init, ws).value;
      assert r == Store(r0, Position(decode, ws[n]), Entry(decode, ws[n]));
      StepCovers(decode, ws, r0);
      StepTight(decode, init, ws, r0);
      StepUntouched(decode, init, ws, r0);
      StepLastWins(decode, ws, r0);
      StepFilled(decode, ws, r0);
    }
  }

  lemma StepCovers(decode: Limbs -> nat, ws: seq<WireLeaf>, r0: seq<Option<string>>)
    requires |ws| > 0 && AllComplete(ws) && AllComplete(ws[..|ws| - 1])
    requires Covers(decode, ws[..|ws| - 1], r0)
    ensures Covers(decode, ws, Store(r0, Position(decode, ws[|ws| - 1]), Entry(decode, ws[|ws| - 1])))
  {
    var n := |ws| - 1;
    var front := ws[..n];
    var r := Store(r0, Position(decode, ws[n]), Entry(decode, ws[n]));
    forall k | 0 <= k < |ws| && IsArrayIndex(Position(decode, ws[k]))
      ensures Position(decode, ws[k]) < |r|
    {
      if k < n {
        assert ws[k] == front[k];
      }
    }
  }

  lemma StepTight(decode: Limbs -> nat, init: seq<Option<string>>, ws: seq<WireLeaf>, r0: seq<Option<string>>)
    requires |ws| > 0 && AllComplete(ws) && AllComplete(ws[..|ws| - 1])
    requires Tight(decode, init, ws[..|ws| - 1], r0)
    ensures Tight(decode, init, ws, Store(r0, Position(decode, ws[|ws| - 1]), Entry(decode, ws[|ws| - 1])))
  {
    var n := |ws| - 1;
    var front := ws[..n];
    var p := Position(decode, ws[n]);
    var r := Store(r0, p, Entry(decode, ws[n]));
    if |r| != |init| {
      if |r| == |r0| {
        var k :| 0 <= k < |front| && Position(decode, front[k]) + 1 == |r0|;
        assert ws[k] == front[k];
      } else {
        assert Position(decode, ws[n]) + 1 == |r|;
      }
    }
  }

  lemma StepUntouched(decode: Limbs -> nat, init: seq<Option<string>>, ws: seq<WireLeaf>, r0: seq<Option<string>>)
    requires |ws| > 0 && AllComplete(ws) && AllComplete(ws[..|ws| - 1])
    requires |init| <= |r0|
    requires Untouched(decode, init, ws[..|ws| - 1], r0)
    ensures Untouched(decode, init, ws, Store(r0, Position(decode, ws[|ws| - 1]), Entry(decode, ws[|ws| - 1])))
  {
    var n := |ws| - 1;
    var front := ws[..n];
    var p := Position(decode, ws[n]);
    var r := Store(r0, p, Entry(decode, ws[n]));
    forall j | 0 <= j < |r| && !Written(decode, ws, j)
      ensures r[j] == if j < |init| then init[j] else None
    {
      assert j != p;
      forall k | 0 <= k < |front| && front[k].index.Some?
        ensures Position(decode, front[k]) != j
      {
        assert front[k] == ws[k];
      }
    }
  }

  lemma StepLastWins(decode: Limbs -> nat, ws: seq<WireLeaf>, r0: seq<Option<string>>)
    requires |ws| > 0 && AllComplete(ws) && AllComplete(ws[..|ws| - 1])
    requires LastWins(decode, ws[..|ws| - 1], r0)
    requires Covers(decode, ws[..|ws| - 1], r0)
    ensures LastWins(decode, ws, Store(r0, Position(decode, ws[|ws| - 1]), Entry(decode, ws[|ws| - 1])))
  {
    var n := |ws| - 1;
    var front := ws[..n];
    var p := Position(decode, ws[n]);
    var r := Store(r0, p, Entry(decode, ws[n]));
    forall k | 0 <= k < |ws| && IsArrayIndex(Position(decode, ws[k])) && LastWrite(decode, ws, k) && Position(decode, ws[k]) < |r|
      ensures r[Position(decode, ws[k])] == Some(Entry(decode, ws[k]))
    {
      if k < n {
        assert ws[k] == front[k];
        assert Position(decode, ws[k]) != p;
        assert LastWrite(decode, front, k) by {
          forall k' | k < k' < |front| && front[k'].index.Some?
            ensures Position(decode, front[k']) != Position(decode, front[k])
          {
            assert front[k'] == ws[k'];
          }
        }
      }
    }
  }

  lemma StepFilled(decode: Limbs -> nat, ws: seq<WireLeaf>, r0: seq<Option<string>>)
    requires |ws| > 0 && AllComplete(ws) && AllComplete(ws[..|ws| - 1])
    requires |r0| <= MAX_ARRAY_LENGTH
    requires Filled(decode, ws[..|ws| - 1], r0)
    requires Covers(decode, ws[..|ws| - 1], r0)
    ensures Filled(decode, ws, Store(r0, Position(decode, ws[|ws| - 1]), Entry(decode, ws[|ws| - 1])))
  {
    var n := |ws| - 1;
    var front := ws[..n];
    var p := Position(decode, ws[n]);
    var r := Store(r0, p, Entry(decode, ws[n]));
    assert |r| <= MAX_ARRAY_LENGTH;
    forall j | 0 <= j < |r| && Written(decode, ws, j)
      ensures exists k :: 0 <= k < |ws| && Position(decode, ws[k]) == j && r[j] == Some(Entry(decode, ws[k]))
    {
      if j == p {
        assert Position(decode, ws[n]) == j && r[j] == Some(Entry(decode, ws[n]));
      } else {
        var k0 :| 0 <= k0 < |ws| && ws[k0].index.Some? && Position(decode, ws[k0]) == j;
        assert k0 < n;
        assert ws[k0] == front[k0];
        assert Written(decode, front, j);
        assert j < |r0|;
        var k :| 0 <= k < |front| && Position(decode, front[k]) == j && r0[j] == Some(Entry(decode, front[k]));
        assert ws[k] == front[k];
        assert Position(decode, ws[k]) == j && r[j] == Some(Entry(decode, ws[k]));
      }
    }
  }

  /** One past the largest slot that is an array index among the leaves'
      positions, 0 if there is none. */
  function Extent(decode: Limbs -> nat, ws: seq<WireLeaf>): (e: nat)
    requires AllComplete(ws)
    ensures forall k :: 0 <= k < |ws| && IsArrayIndex(Position(decode, ws[k])) ==> Position(decode, ws[k]) < e
    ensures e == 0 || exists k :: 0 <= k < |ws| && IsArrayIndex(Position(decode, ws[k])) && Position(decode, ws[k]) + 1 == e
    decreases |ws|
  {
    if |ws| == 0 then 0
    else
      var n := |ws| - 1;
      FrontComplete(ws);
      var e0 := Extent(decode, ws[..n]);
      var p := Position(decode, ws[n]);
      if IsArrayIndex(p) && e0 <= p then p + 1 else e0
  }

  function Max(a: int, b: int): int {
    if a < b then b else a
  }

  /** `decodeTree`'s fold on a leaf list it accepts: the array is as long
      as the leaf count or one past the largest slot written, whichever is
      larger; a slot no leaf names stays empty; and the result is `Placed`
      over the initial holes, so the last leaf naming a slot decides it. */
  lemma DecodeLeavesLayout(decode: Limbs -> nat, t: WireTree)
    requires |t.leaves| <= MAX_ARRAY_LENGTH && AllComplete(t.leaves)
    ensures DecodeLeavesWith(decode, t).Success?
    ensures Placed(decode, Holes(|t.leaves|), t.leaves, DecodeLeavesWith(decode, t).value)
    ensures |DecodeLeavesWith(decode, t).value| == Max(|t.leaves|, Extent(decode, t.leaves))
    ensures forall j :: 0 <= j < |DecodeLeavesWith(decode, t).value| && !Written(decode, t.leaves, j) ==>
      DecodeLeavesWith(decode, t).value[j] == None
  {
    var ws := t.leaves;
    var init := Holes(|ws|);
    PlaceSpec(decode, init, ws);
    var r := DecodeLeavesWith(decode, t).value;
    assert r == Place(decode, init, ws).value;
    var e := Extent(decode, ws);
    if e > 0 {
      var k :| 0 <= k < |ws| && IsArrayIndex(Position(decode, ws[k])) && Position(decode, ws[k]) + 1 == e;
      assert e <= |r|;
    }
    if |r| != |init| {
      var k :| 0 <= k < |ws| && Position(decode, ws[k]) + 1 == |r|;
      assert IsArrayIndex(Position(decode, ws[k]));
    }
  }

  /** The leaf at each position names that position as its slot. */
  predicate SelfIndexed(decode: Limbs -> nat, ws: seq<WireLeaf>)
    requires AllComplete(ws)
  {
    forall k :: 0 <= k < |ws| ==> Position(decode, ws[k]) == k
  }

  /** When every leaf names its own position, the fold fills exactly the
      leaf count's slots, leaf `k` in slot `k`, and leaves no hole. */
  lemma DecodeSelfIndexed(decode: Limbs -> nat, t: WireTree)
    requires |t.leaves| <= MAX_ARRAY_LENGTH && AllComplete(t.leaves)
    requires SelfIndexed(decode, t.leaves)
    ensures DecodeLeavesWith(decode, t).Success?
    ensures |DecodeLeavesWith(decode, t).value| == |t.leaves|
    ensures forall k :: 0 <= k < |t.leaves| ==> DecodeLeavesWith(decode, t).value[k] == Some(Entry(decode, t.leaves[k]))
  {
    var ws := t.leaves;
    DecodeLeavesLayout(decode, t);
    var r := DecodeLeavesWith(decode, t).value;
    forall k | 0 <= k < |ws|
      ensures r[k] == Some(Entry(decode, ws[k]))
    {
      assert IsArrayIndex(Position(decode, ws[k]));
      assert LastWrite(decode, ws, k);
    }
  }

  /** No two leaves naming the same slot carry different entries. */
  ghost predicate Consistent(decode: Limbs -> nat, ws: seq<WireLeaf>)
    requires AllComplete(ws)
  {
    forall k, k' :: 0 <= k < |ws| && 0 <= k' < |ws| && Position(decode, ws[k]) == Position(decode, ws[k']) ==>
      Entry(decode, ws[k]) == Entry(decode, ws[k'])
  }

  /** Every leaf of `ws` occurs in `ws'`. */
  predicate Within(ws: seq<WireLeaf>, ws': seq<WireLeaf>) {
    forall k :: 0 <= k < |ws| ==> ws[k] in ws'
  }

  lemma SameElements(ws: seq<WireLeaf>, ws': seq<WireLeaf>)
    requires multiset(ws) == multiset(ws')
    ensures |ws| == |ws'|
    ensures Within(ws, ws') && Within(ws', ws)
  {
    assert |multiset(ws)| == |ws| && |multiset(ws')| == |ws'|;
    forall k | 0 <= k < |ws|
      ensures ws[k] in ws'
    {
      assert ws[k] in multiset(ws);
    }
    forall k | 0 <= k < |ws'|
      ensures ws'[k] in ws
    {
      assert ws'[k] in multiset(ws');
    }
  }

  lemma WithinComplete(ws: seq<WireLeaf>, ws': seq<WireLeaf>)
    requires AllComplete(ws) && Within(ws', ws)
    ensures AllComplete(ws')
  {
    forall k' | 0 <= k' < |ws'|
      ensures Complete(ws'[k'])
    {
      assert ws'[k'] in ws;
    }
  }

  lemma WithinWritten(decode: Limbs -> nat, ws: seq<WireLeaf>, ws': seq<WireLeaf>, j: nat)
    requires Within(ws, ws') && Written(decode, ws, j)
    ensures Written(decode, ws', j)
  {
    var k :| 0 <= k < |ws| && ws[k].index.Some? && Position(decode, ws[k]) == j;
    assert ws[k] in ws';
    var k' :| 0 <= k' < |ws'| && ws'[k'] == ws[k];
    assert ws'[k'].index.Some? && Position(decode, ws'[k']) == j;
  }

  /** A written slot holds the same entry in both results: each holds the
      entry of some leaf naming it, and those leaves agree. */
  lemma WrittenSlotAgrees(decode: Limbs -> nat, ws: seq<WireLeaf>, ws': seq<WireLeaf>,
                          r: seq<Option<string>>, r': seq<Option<string>>, j: nat)
    requires AllComplete(ws) && AllComplete(ws') && Consistent(decode, ws) && Within(ws', ws)
    requires Filled(decode, ws, r) && Filled(decode, ws', r')
    requires j < |r| && j < |r'| && Written(decode, ws, j) && Written(decode, ws', j)
    ensures r[j] == r'[j]
  {
    var k :| 0 <= k < |ws| && Position(decode, ws[k]) == j && r[j] == Some(Entry(decode, ws[k]));
    var k' :| 0 <= k' < |ws'| && Position(decode, ws'[k']) == j && r'[j] == Some(Entry(decode, ws'[k']));
    assert ws'[k'] in ws;
    var k1 :| 0 <= k1 < |ws| && ws[k1] == ws'[k'];
    assert Entry(decode, ws[k1]) == Entry(decode, ws[k]);
  }

  /** The fold gives the same array for any order of the same leaves,
      provided no two leaves naming the same slot disagree. */
  lemma PlaceOrderIndependent(decode: Limbs -> nat, init: seq<Option<string>>, ws: seq<WireLeaf>, ws': seq<WireLeaf>)
    requires |init| <= MAX_ARRAY_LENGTH && AllComplete(ws) && multiset(ws) == multiset(ws')
    requires Consistent(decode, ws)
    ensures AllComplete(ws')
    ensures Place(decode, init, ws) == Place(decode, init, ws')
  {
    SameElements(ws, ws');
    WithinComplete(ws, ws');
    PlaceSpec(decode, init, ws);
    PlaceSpec(decode, init, ws');
    var r := Place(decode, init, ws).value;
    var r' := Place(decode, init, ws').value;
    PlacedSameLength(decode, init, ws, ws', r, r');
    PlacedSameLength(decode, init, ws', ws, r', r);
    SlotsAgree(decode, init, ws, ws', r, r');
  }

  /** Equally long results for two orders of the same consistent leaves
      agree slot by slot. */
  lemma SlotsAgree(decode: Limbs -> nat, init: seq<Option<string>>, ws: seq<WireLeaf>, ws': seq<WireLeaf>,
                   r: seq<Option<string>>, r': seq<Option<string>>)
    requires AllComplete(ws) && AllComplete(ws') && Consistent(decode, ws)
    requires Within(ws, ws') && Within(ws', ws)
    requires |init| <= |r| && |r| == |r'|
    requires Untouched(decode, init, ws, r) && Untouched(decode, init, ws', r')
    requires Filled(decode, ws, r) && Filled(decode, ws', r')
    ensures r == r'
  {
    forall j | 0 <= j < |r|
      ensures r[j] == r'[j]
    {
      if Written(decode, ws, j) {
        WithinWritten(decode, ws, ws', j);
        WrittenSlotAgrees(decode, ws, ws', r, r', j);
      } else if Written(decode, ws', j) {
        WithinWritten(decode, ws', ws, j);
        assert false;
      }
    }
  }

  /** A result for `ws'` is no longer than one for `ws` when every leaf of
      `ws'` is also in `ws`: the last slot of the longer one would be
      covered by the shorter. */
  lemma PlacedSameLength(decode: Limbs -> nat, init: seq<Option<string>>, ws: seq<WireLeaf>, ws': seq<WireLeaf>,
                         r: seq<Option<string>>, r': seq<Option<string>>)
    requires AllComplete(ws) && AllComplete(ws') && Within(ws', ws)
    requires |init| <= |r| && |r'| <= MAX_ARRAY_LENGTH
    requires Covers(decode, ws, r) && Tight(decode, init, ws', r')
    ensures |r'| <= |r|
  {
    if |r'| > |r| {
      var k' :| 0 <= k' < |ws'| && Position(decode, ws'[k']) + 1 == |r'|;
      assert ws'[k'] in ws;
      var k :| 0 <= k < |ws| && ws[k] == ws'[k'];
      assert IsArrayIndex(Position(decode, ws[k]));
    }
  }

  /** `decodeTree` does not depend on the order of the wire leaves: any
      reordering gives the same result, the same RangeError or the same
      missing-field error, as long as leaves naming the same slot agree. */
  lemma DecodeLeavesOrderIndependent(decode: Limbs -> nat, t: WireTree, t': WireTree)
    requires multiset(t.leaves) == multiset(t'.leaves)
    requires AllComplete(t.leaves) ==> Consistent(decode, t.leaves)
    ensures DecodeLeavesWith(decode, t) == DecodeLeavesWith(decode, t')
  {
    SameElements(t.leaves, t'.leaves);
    if AllComplete(t.leaves) {
      WithinComplete(t.leaves, t'.leaves);
      if |t.leaves| <= MAX_ARRAY_LENGTH {
        PlaceOrderIndependent(decode, Holes(|t.leaves|), t.leaves, t'.leaves);
      }
    } else if AllComplete(t'.leaves) {
      WithinComplete(t'.leaves, t.leaves);
    }
  }

  /** Self-indexed leaves never disagree about a slot: no two name the same. */
  lemma SelfIndexedConsistent(decode: Limbs -> nat, ws: seq<WireLeaf>)
    requires AllComplete(ws) && SelfIndexed(decode, ws)
    ensures Consistent(decode, ws)
  {
  }
}
