/** The two-column layout of the program timeline: phases at even
    positions go to the left column and phases at odd positions to the
    right, each column keeping the original order. */
module PhaseColumns {

  /** `phases.filter((_, index) => index % 2 === parity)`: the elements
      whose position has the given parity. */
  function Column<T>(phases: seq<T>, parity: nat): (r: seq<T>)
    requires parity < 2
    ensures |r| <= |phases|
    decreases |phases|
  {
    if |phases| == 0 then []
    else if parity == 0 then [phases[0]] + Column(phases[1..], 1)
    else Column(phases[1..], 0)
  }

  function LeftPhases<T>(phases: seq<T>): seq<T> { Column(phases, 0) }

  function RightPhases<T>(phases: seq<T>): seq<T> { Column(phases, 1) }

  /** A column holds exactly the phases at positions `2k + parity`, in
      order: `ceil(n/2)` of them on the left, `floor(n/2)` on the right. */
  lemma {:induction false} ColumnContents<T>(phases: seq<T>, parity: nat)
    requires parity < 2
    ensures |Column(phases, parity)| == (|phases| + 1 - parity) / 2
    ensures forall k :: 0 <= k < |Column(phases, parity)| ==>
      Column(phases, parity)[k] == phases[2 * k + parity]
    decreases |phases|
  {
    if |phases| > 0 {
      ColumnContents(phases[1..], 1 - parity);
      if parity == 0 {
        LeftColumnStep(phases);
      } else {
        RightColumnStep(phases);
      }
    }
  }

  /** The left column is the first phase followed by the tail's right
      column, so its `k`-th entry is the tail's entry at `2k - 1`. */
  lemma LeftColumnStep<T>(phases: seq<T>)
    requires |phases| > 0
    requires 2 * |Column(phases[1..], 1)| + 1 >= |phases| - 1 >= 2 * |Column(phases[1..], 1)|
    requires var c := Column(phases[1..], 1);
      forall k :: 0 <= k < |c| ==> c[k] == phases[1..][2 * k + 1]
    ensures 2 * |Column(phases, 0)| - 1 <= |phases| <= 2 * |Column(phases, 0)|
    ensures forall k :: 0 <= k < |Column(phases, 0)| ==> Column(phases, 0)[k] == phases[2 * k]
  {
    var c := Column(phases[1..], 1);
    var r := Column(phases, 0);
    assert r == [phases[0]] + c;
    forall k | 0 <= k < |r| ensures r[k] == phases[2 * k] {
      if k > 0 {
        var j := k - 1;
        assert r[k] == c[j];
        assert c[j] == phases[1..][2 * j + 1];
      }
    }
  }

  /** The right column is the tail's left column. */
  lemma RightColumnStep<T>(phases: seq<T>)
    requires |phases| > 0
    requires 2 * |Column(phases[1..], 0)| - 1 <= |phases| - 1 <= 2 * |Column(phases[1..], 0)|
    requires var c := Column(phases[1..], 0);
      forall k :: 0 <= k < |c| ==> c[k] == phases[1..][2 * k]
    ensures 2 * |Column(phases, 1)| + 1 >= |phases| >= 2 * |Column(phases, 1)|
    ensures forall k :: 0 <= k < |Column(phases, 1)| ==> Column(phases, 1)[k] == phases[2 * k + 1]
  {
    var c := Column(phases[1..], 0);
    assert Column(phases, 1) == c;
    forall k | 0 <= k < |c| ensures c[k] == phases[2 * k + 1] {
      assert c[k] == phases[1..][2 * k];
    }
  }

  /** Every phase lands in exactly one column, at half its position. */
  lemma EachPhaseOnce<T>(phases: seq<T>, i: nat)
    requires i < |phases|
    ensures i % 2 == 0 ==> i / 2 < |LeftPhases(phases)| && LeftPhases(phases)[i / 2] == phases[i]
    ensures i % 2 == 1 ==> i / 2 < |RightPhases(phases)| && RightPhases(phases)[i / 2] == phases[i]
    ensures |LeftPhases(phases)| + |RightPhases(phases)| == |phases|
  {
    ColumnContents(phases, 0);
    ColumnContents(phases, 1);
  }

  /** Reads two columns back in alternation, starting with `a`. */
  function Interleave<T>(a: seq<T>, b: seq<T>): (r: seq<T>)
    requires |b| <= |a| <= |b| + 1
    ensures |r| == |a| + |b|
    decreases |a| + |b|
  {
    if |a| == 0 then [] else [a[0]] + Interleave(b, a[1..])
  }

  /** Interleaving the left and right columns gives back the phases. */
  lemma {:induction false} InterleaveColumns<T>(phases: seq<T>)
    ensures |RightPhases(phases)| <= |LeftPhases(phases)| <= |RightPhases(phases)| + 1
    ensures Interleave(LeftPhases(phases), RightPhases(phases)) == phases
    decreases |phases|
  {
    ColumnContents(phases, 0);
    ColumnContents(phases, 1);
    if |phases| > 0 {
      var rest := phases[1..];
      InterleaveColumns(rest);
      assert LeftPhases(phases) == [phases[0]] + RightPhases(rest);
      assert RightPhases(phases) == LeftPhases(rest);
      assert LeftPhases(phases)[1..] == RightPhases(rest);
      assert [phases[0]] + rest == phases;
    }
  }
}
