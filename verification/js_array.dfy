/** The array built-ins the catalog handlers use, as pure functions over
    sequences: `filter`, `findIndex`, `find`, `slice` and `splice(index, 1)`. */
module JsArray {
  import opened JsValues

  /** `s.filter(keep)`: the elements that satisfy `keep`, in their original order. */
  function Filter<T>(s: seq<T>, keep: T -> bool): (r: seq<T>)
    ensures |r| <= |s|
    ensures forall j :: 0 <= j < |r| ==> r[j] in s && keep(r[j])
    ensures forall i :: 0 <= i < |s| && keep(s[i]) ==> s[i] in r
    decreases |s|
  {
    if s == [] then []
    else if keep(s[0]) then [s[0]] + Filter(s[1..], keep)
    else Filter(s[1..], keep)
  }

  /** `r` holds, one by one, the elements of `s` at the positions listed in `idx`. */
  ghost predicate Picks<T>(r: seq<T>, s: seq<T>, idx: seq<int>) {
    && |idx| == |r|
    && forall j :: 0 <= j < |idx| ==> 0 <= idx[j] < |s| && r[j] == s[idx[j]]
  }

  ghost predicate StrictlyIncreasing(idx: seq<int>) {
    forall j, k :: 0 <= j < k < |idx| ==> idx[j] < idx[k]
  }

  /** `idx` lists exactly the positions of `s` whose element satisfies `keep`. */
  ghost predicate ListsKeptPositions<T>(s: seq<T>, keep: T -> bool, idx: seq<int>) {
    forall i :: 0 <= i < |s| ==> (keep(s[i]) <==> i in idx)
  }

  /** `idx` lists, in strictly increasing order, exactly the positions of `s`
      whose element satisfies `keep`, and `r` holds the elements at those
      positions: `r` is the order-preserving selection of `s` by `keep`. */
  ghost predicate IsOrderedSelection<T>(r: seq<T>, s: seq<T>, keep: T -> bool, idx: seq<int>) {
    Picks(r, s, idx) && StrictlyIncreasing(idx) && ListsKeptPositions(s, keep, idx)
  }

  /** Every position shifted by `d`. */
  function Shift(idx: seq<int>, d: int): (r: seq<int>)
    ensures |r| == |idx|
    ensures forall j :: 0 <= j < |idx| ==> r[j] == idx[j] + d
  {
    seq(|idx|, j requires 0 <= j < |idx| => idx[j] + d)
  }

  lemma ShiftMembers(idx: seq<int>, d: int)
    ensures forall i :: i in idx <==> i + d in Shift(idx, d)
  {
    forall i
      ensures i in idx <==> i + d in Shift(idx, d)
    {
      if i + d in Shift(idx, d) {
        var j :| 0 <= j < |idx| && Shift(idx, d)[j] == i + d;
        assert idx[j] == i;
      }
    }
  }

  /** A selection of `s[1..]` extends to one of `s` when `s[0]` is kept. */
  lemma SelectionStepKept<T>(rest: seq<T>, s: seq<T>, keep: T -> bool, idx': seq<int>)
    requires s != [] && keep(s[0])
    requires IsOrderedSelection(rest, s[1..], keep, idx')
    ensures IsOrderedSelection([s[0]] + rest, s, keep, [0] + Shift(idx', 1))
  {
    PicksStepKept(rest, s, idx');
    ListsStepKept(s, keep, idx');
  }

  lemma PicksStepKept<T>(rest: seq<T>, s: seq<T>, idx': seq<int>)
    requires s != []
    requires Picks(rest, s[1..], idx')
    ensures Picks([s[0]] + rest, s, [0] + Shift(idx', 1))
    ensures StrictlyIncreasing(idx') ==> StrictlyIncreasing([0] + Shift(idx', 1))
  {
    var idx := [0] + Shift(idx', 1);
    var r := [s[0]] + rest;
    forall j | 0 < j < |idx|
      ensures 0 <= idx[j] < |s| && r[j] == s[idx[j]]
    {
      assert r[j] == rest[j - 1];
      assert idx[j] == idx'[j - 1] + 1;
    }
  }

  lemma ListsStepKept<T>(s: seq<T>, keep: T -> bool, idx': seq<int>)
    requires s != [] && keep(s[0])
    requires ListsKeptPositions(s[1..], keep, idx')
    ensures ListsKeptPositions(s, keep, [0] + Shift(idx', 1))
  {
    var shifted := Shift(idx', 1);
    var idx := [0] + shifted;
    ShiftMembers(idx', 1);
    forall i | 0 < i < |s|
      ensures keep(s[i]) <==> i in idx
    {
      assert s[i] == s[1..][i - 1];
      assert (i in idx) <==> (i in shifted);
    }
  }

  /** A selection of `s[1..]` is, shifted, a selection of `s` when `s[0]` is dropped. */
  lemma SelectionStepDropped<T>(rest: seq<T>, s: seq<T>, keep: T -> bool, idx': seq<int>)
    requires s != [] && !keep(s[0])
    requires IsOrderedSelection(rest, s[1..], keep, idx')
    ensures IsOrderedSelection(rest, s, keep, Shift(idx', 1))
  {
    PicksStepDropped(rest, s, idx');
    ListsStepDropped(rest, s, keep, idx');
  }

  lemma PicksStepDropped<T>(rest: seq<T>, s: seq<T>, idx': seq<int>)
    requires s != []
    requires Picks(rest, s[1..], idx') && StrictlyIncreasing(idx')
    ensures Picks(rest, s, Shift(idx', 1)) && StrictlyIncreasing(Shift(idx', 1))
  {
    var idx := Shift(idx', 1);
    forall j | 0 <= j < |idx|
      ensures 0 <= idx[j] < |s| && rest[j] == s[idx[j]]
    {
      assert rest[j] == s[1..][idx'[j]];
    }
  }

  lemma ListsStepDropped<T>(rest: seq<T>, s: seq<T>, keep: T -> bool, idx': seq<int>)
    requires s != [] && !keep(s[0])
    requires Picks(rest, s[1..], idx') && ListsKeptPositions(s[1..], keep, idx')
    ensures ListsKeptPositions(s, keep, Shift(idx', 1))
  {
    var shifted := Shift(idx', 1);
    ShiftMembers(idx', 1);
    assert 0 !in shifted;
    forall i | 0 < i < |s|
      ensures keep(s[i]) <==> i in shifted
    {
      assert s[i] == s[1..][i - 1];
    }
  }

  /** `Filter` computes the order-preserving selection of `s` by `keep`. */
  lemma {:induction false} FilterIsOrderedSelection<T>(s: seq<T>, keep: T -> bool)
    ensures exists idx :: IsOrderedSelection(Filter(s, keep), s, keep, idx)
    decreases |s|
  {
    if s == [] {
      assert Picks([], s, []) && StrictlyIncreasing([]) && ListsKeptPositions(s, keep, []);
      assert IsOrderedSelection(Filter(s, keep), s, keep, []);
    } else {
      FilterIsOrderedSelection(s[1..], keep);
      var rest := Filter(s[1..], keep);
      var idx' :| IsOrderedSelection(rest, s[1..], keep, idx');
      if keep(s[0]) {
        SelectionStepKept(rest, s, keep, idx');
        assert IsOrderedSelection(Filter(s, keep), s, keep, [0] + Shift(idx', 1));
      } else {
        SelectionStepDropped(rest, s, keep, idx');
        assert IsOrderedSelection(Filter(s, keep), s, keep, Shift(idx', 1));
      }
    }
  }

  /** A selection of `s` by `keep` that starts with a kept `s[0]` continues with
      a selection of `s[1..]`. */
  lemma SelectionTailKept<T>(r: seq<T>, s: seq<T>, keep: T -> bool, idx: seq<int>)
    requires s != [] && keep(s[0])
    requires IsOrderedSelection(r, s, keep, idx)
    ensures r != [] && r[0] == s[0]
    ensures IsOrderedSelection(r[1..], s[1..], keep, Shift(idx[1..], -1))
  {
    FirstPickIsZero(r, s, keep, idx);
    PicksTail(r, s, idx);
    ListsTailKept(s, keep, idx);
  }

  /** When `s[0]` is kept, the first listed position is 0. */
  lemma FirstPickIsZero<T>(r: seq<T>, s: seq<T>, keep: T -> bool, idx: seq<int>)
    requires s != [] && keep(s[0])
    requires IsOrderedSelection(r, s, keep, idx)
    ensures |idx| > 0 && idx[0] == 0
  {
    assert 0 in idx;
    var z :| 0 <= z < |idx| && idx[z] == 0;
    assert idx[0] <= idx[z];
  }

  lemma PicksTail<T>(r: seq<T>, s: seq<T>, idx: seq<int>)
    requires Picks(r, s, idx) && StrictlyIncreasing(idx)
    requires |idx| > 0 && idx[0] == 0
    ensures Picks(r[1..], s[1..], Shift(idx[1..], -1))
    ensures StrictlyIncreasing(Shift(idx[1..], -1))
  {
    var idx' := Shift(idx[1..], -1);
    forall j | 0 <= j < |idx'|
      ensures 0 <= idx'[j] < |s| - 1 && r[1..][j] == s[1..][idx'[j]]
    {
      assert idx[0] < idx[j + 1];
    }
  }

  lemma ListsTailKept<T>(s: seq<T>, keep: T -> bool, idx: seq<int>)
    requires s != []
    requires ListsKeptPositions(s, keep, idx)
    requires |idx| > 0 && idx[0] == 0
    ensures ListsKeptPositions(s[1..], keep, Shift(idx[1..], -1))
  {
    var idx' := Shift(idx[1..], -1);
    ShiftMembers(idx[1..], -1);
    forall i | 0 <= i < |s| - 1
      ensures keep(s[1..][i]) <==> i in idx'
    {
      assert s[1..][i] == s[i + 1];
      assert (i + 1 in idx) <==> (i + 1 in idx[1..]);
    }
  }

  /** A selection of `s` by `keep` when `s[0]` is dropped is a selection of `s[1..]`. */
  lemma SelectionTailDropped<T>(r: seq<T>, s: seq<T>, keep: T -> bool, idx: seq<int>)
    requires s != [] && !keep(s[0])
    requires IsOrderedSelection(r, s, keep, idx)
    ensures IsOrderedSelection(r, s[1..], keep, Shift(idx, -1))
  {
    PicksTailDropped(r, s, idx);
    ListsTailDropped(s, keep, idx);
  }

  lemma PicksTailDropped<T>(r: seq<T>, s: seq<T>, idx: seq<int>)
    requires s != [] && 0 !in idx
    requires Picks(r, s, idx) && StrictlyIncreasing(idx)
    ensures Picks(r, s[1..], Shift(idx, -1)) && StrictlyIncreasing(Shift(idx, -1))
  {
    var idx' := Shift(idx, -1);
    forall j | 0 <= j < |idx|
      ensures 0 <= idx'[j] < |s| - 1 && r[j] == s[1..][idx'[j]]
    {
      assert idx[j] != 0;
    }
  }

  lemma ListsTailDropped<T>(s: seq<T>, keep: T -> bool, idx: seq<int>)
    requires s != [] && !keep(s[0])
    requires ListsKeptPositions(s, keep, idx)
    ensures ListsKeptPositions(s[1..], keep, Shift(idx, -1))
  {
    var idx' := Shift(idx, -1);
    ShiftMembers(idx, -1);
    forall i | 0 <= i < |s| - 1
      ensures keep(s[1..][i]) <==> i in idx'
    {
      assert s[1..][i] == s[i + 1];
    }
  }

  /** The first listed position lies inside `s`. */
  lemma FirstPick<T>(r: seq<T>, s: seq<T>, idx: seq<int>)
    requires Picks(r, s, idx) && |idx| > 0
    ensures 0 <= idx[0] < |s|
  {
  }

  /** Nothing can be picked from an empty sequence. */
  lemma NothingPicksNothing<T>(r: seq<T>, s: seq<T>, idx: seq<int>)
    requires s == []
    requires Picks(r, s, idx)
    ensures r == []
  {
    if |idx| > 0 {
      FirstPick(r, s, idx);
      assert false;
    }
  }

  /** Conversely, an order-preserving selection of `s` by `keep` is `Filter(s, keep)`:
      the result of `filter` is determined by the positions it keeps. */
  lemma {:induction false} OrderedSelectionIsFilter<T>(r: seq<T>, s: seq<T>, keep: T -> bool, idx: seq<int>)
    requires IsOrderedSelection(r, s, keep, idx)
    ensures r == Filter(s, keep)
    decreases |s|
  {
    if s == [] {
      NothingPicksNothing(r, s, idx);
    } else {
      var rest, idx' := SelectionTail(r, s, keep, idx);
      OrderedSelectionIsFilter(rest, s[1..], keep, idx');
    }
  }

  /** Peels the first position off a selection of a non-empty `s`: what is left
      is a selection of `s[1..]`, preceded by `s[0]` exactly when it is kept. */
  lemma SelectionTail<T>(r: seq<T>, s: seq<T>, keep: T -> bool, idx: seq<int>)
      returns (rest: seq<T>, idx': seq<int>)
    requires s != []
    requires IsOrderedSelection(r, s, keep, idx)
    ensures IsOrderedSelection(rest, s[1..], keep, idx')
    ensures r == if keep(s[0]) then [s[0]] + rest else rest
  {
    if keep(s[0]) {
      SelectionTailKept(r, s, keep, idx);
      rest, idx' := r[1..], Shift(idx[1..], -1);
      assert r == [s[0]] + rest;
    } else {
      SelectionTailDropped(r, s, keep, idx);
      rest, idx' := r, Shift(idx, -1);
    }
  }

  /** `r` is `s.filter(keep)` exactly when it is the order-preserving selection of
      `s` by `keep`. */
  lemma FilterCharacterization<T>(r: seq<T>, s: seq<T>, keep: T -> bool)
    ensures r == Filter(s, keep) <==> exists idx :: IsOrderedSelection(r, s, keep, idx)
  {
    if r == Filter(s, keep) {
      FilterIsOrderedSelection(s, keep);
    }
    if exists idx :: IsOrderedSelection(r, s, keep, idx) {
      var idx :| IsOrderedSelection(r, s, keep, idx);
      OrderedSelectionIsFilter(r, s, keep, idx);
    }
  }

  /** Filtering distributes over concatenation. */
  lemma {:induction false} FilterAppend<T>(a: seq<T>, b: seq<T>, keep: T -> bool)
    ensures Filter(a + b, keep) == Filter(a, keep) + Filter(b, keep)
    decreases |a|
  {
    if a == [] {
      assert a + b == b;
    } else {
      assert (a + b)[1..] == a[1..] + b;
      FilterAppend(a[1..], b, keep);
    }
  }

  /** `s.findIndex(pred)`: the first position whose element satisfies `pred`,
      or -1 when there is none. */
  function FindIndex<T>(s: seq<T>, pred: T -> bool): (r: int)
    ensures -1 <= r < |s|
    ensures r == -1 <==> forall i :: 0 <= i < |s| ==> !pred(s[i])
    ensures 0 <= r ==> pred(s[r]) && forall i :: 0 <= i < r ==> !pred(s[i])
    decreases |s|
  {
    if s == [] then -1
    else if pred(s[0]) then 0
    else
      var k := FindIndex(s[1..], pred);
      if k == -1 then -1 else k + 1
  }

  /** `i` is the first position of `s` whose element satisfies `pred`. */
  ghost predicate FirstMatch<T>(s: seq<T>, pred: T -> bool, i: int) {
    0 <= i < |s| && pred(s[i]) && forall j :: 0 <= j < i ==> !pred(s[j])
  }

  /** `s.find(pred)`: the element at `FindIndex(s, pred)`, or `undefined`. */
  function Find<T>(s: seq<T>, pred: T -> bool): (r: Option<T>)
    ensures r.None? <==> forall i :: 0 <= i < |s| ==> !pred(s[i])
    ensures r.Some? ==> exists i :: FirstMatch(s, pred, i) && s[i] == r.value
  {
    var k := FindIndex(s, pred);
    if k == -1 then None else assert FirstMatch(s, pred, k); Some(s[k])
  }

  /** How `slice` reads a position argument: a negative one counts back from
      the end, and the result is clipped to `[0, len]`. */
  function RelativeIndex(k: int, len: nat): (r: nat)
    ensures r <= len
    ensures 0 <= k ==> r == if k < len then k else len
    ensures k < 0 ==> r == if len + k < 0 then 0 else len + k
  {
    if k < 0 then (if len + k < 0 then 0 else len + k)
    else if k < len then k
    else len
  }

  /** `s.slice(start, end)`: a contiguous run of `s`, beginning where `start`
      resolves to and never reaching past where `end` resolves to. */
  function Slice<T>(s: seq<T>, start: int, end: int): (r: seq<T>)
    ensures RelativeIndex(start, |s|) + |r| <= |s|
    ensures |r| <= |s|
    ensures forall j :: 0 <= j < |r| ==> r[j] == s[RelativeIndex(start, |s|) + j]
    ensures RelativeIndex(start, |s|) < RelativeIndex(end, |s|) ==>
      |r| == RelativeIndex(end, |s|) - RelativeIndex(start, |s|)
    ensures RelativeIndex(end, |s|) <= RelativeIndex(start, |s|) ==> r == []
  {
    var from := RelativeIndex(start, |s|);
    var to := RelativeIndex(end, |s|);
    if from < to then s[from..to] else []
  }

  function Min(a: int, b: int): int {
    if a < b then a else b
  }

  /** With non-negative bounds, `slice` is the window `[start, end)` clipped to
      the sequence: it never holds more than `end - start` elements, and it is
      empty once `start` is past the end. */
  lemma SliceNonNegative<T>(s: seq<T>, start: int, end: int)
    requires 0 <= start <= end
    ensures Slice(s, start, end) == s[Min(start, |s|)..Min(end, |s|)]
    ensures |Slice(s, start, end)| <= end - start
    ensures start >= |s| ==> Slice(s, start, end) == []
    ensures forall j :: 0 <= j < |Slice(s, start, end)| ==> Slice(s, start, end)[j] == s[start + j]
  {
  }

  /** A negative bound counts back from the end of the sequence, one further
      back than its length counts as 0, and a bound past the end counts as the
      end. */
  lemma SliceRelativeBounds<T>(s: seq<T>, start: int, end: int)
    ensures -|s| <= start < 0 ==> Slice(s, start, end) == Slice(s, |s| + start, end)
    ensures start < -|s| ==> Slice(s, start, end) == Slice(s, 0, end)
    ensures start > |s| ==> Slice(s, start, end) == Slice(s, |s|, end)
    ensures -|s| <= end < 0 ==> Slice(s, start, end) == Slice(s, start, |s| + end)
    ensures end < -|s| ==> Slice(s, start, end) == []
    ensures end > |s| ==> Slice(s, start, end) == Slice(s, start, |s|)
  {
  }

  /** `s.splice(i, 1)` on the array: the sequence without position `i`, every
      other element kept in order. */
  function RemoveAt<T>(s: seq<T>, i: nat): (r: seq<T>)
    requires i < |s|
    ensures |r| == |s| - 1
    ensures forall j :: 0 <= j < i ==> r[j] == s[j]
    ensures forall j :: i <= j < |r| ==> r[j] == s[j + 1]
    ensures multiset(r) + multiset{s[i]} == multiset(s)
  {
    assert s == s[..i] + [s[i]] + s[i + 1..];
    s[..i] + s[i + 1..]
  }
}
