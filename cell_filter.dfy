/** What the exercise filter computes, stated on values.

    The filter walks the cells in order. It stops at the first markdown cell
    whose source mentions the exercise marker, and it drops every code cell
    whose source is empty. The functions below are generic in the element
    type `T`: `xs` are the things kept or dropped (cell objects, or their
    views), and `vs` are the views the decisions are taken on, position by
    position. */
module CellFilter {
  import opened Strings
  import opened Notebooks

  /** The heading text that opens the exercise part of a notebook. */
  const ExerciseMarker: string := "## Exerc"

  /** A markdown cell whose source contains the marker: the filter stops here. */
  predicate StartsExercises(c: CellView)
  {
    c.cellType == Markdown && Find(c.source, ExerciseMarker) != -1
  }

  /** The stop test in words: a markdown cell in whose source the marker
      occurs somewhere. */
  lemma StartsExercisesMeans(c: CellView)
    ensures StartsExercises(c) <==>
      c.cellType == Markdown && exists i: nat :: OccursAt(c.source, ExerciseMarker, i)
  {
    FindIsFirstOccurrence(c.source, ExerciseMarker);
  }

  /** A code cell with nothing in it: the filter skips it. */
  predicate IsEmptyCode(c: CellView)
  {
    c.cellType == Code && c.source == []
  }

  /** The index of the first cell at or after `from` that starts the exercises,
      or `|vs|` when there is none. */
  function CutOffFrom(vs: seq<CellView>, from: nat): (k: nat)
    requires from <= |vs|
    decreases |vs| - from
    ensures from <= k <= |vs|
    ensures forall i :: from <= i < k ==> !StartsExercises(vs[i])
    ensures k < |vs| ==> StartsExercises(vs[k])
  {
    if from == |vs| || StartsExercises(vs[from]) then from else CutOffFrom(vs, from + 1)
  }

  /** The index of the first cell that starts the exercises, or `|vs|`. */
  function CutOff(vs: seq<CellView>): (k: nat)
    ensures k <= |vs|
    ensures forall i :: 0 <= i < k ==> !StartsExercises(vs[i])
    ensures k < |vs| ==> StartsExercises(vs[k])
  {
    CutOffFrom(vs, 0)
  }

  predicate Increasing(ks: seq<nat>)
  {
    forall a, b :: 0 <= a < b < |ks| ==> ks[a] < ks[b]
  }

  /** The positions, from `from` on, of the cells the filter keeps, in the
      order the loop appends them. */
  function KeptFrom(vs: seq<CellView>, from: nat): (ks: seq<nat>)
    requires from <= CutOff(vs)
    decreases |vs| - from
    ensures Increasing(ks)
    ensures forall j :: 0 <= j < |ks| ==> from <= ks[j] < CutOff(vs)
    ensures forall i :: i in ks <==> from <= i < CutOff(vs) && !IsEmptyCode(vs[i])
  {
    if from == |vs| || StartsExercises(vs[from]) then []
    else if IsEmptyCode(vs[from]) then KeptFrom(vs, from + 1)
    else [from] + KeptFrom(vs, from + 1)
  }

  /** The positions of all the cells the filter keeps. */
  function Kept(vs: seq<CellView>): (ks: seq<nat>)
    ensures Increasing(ks)
    ensures forall j :: 0 <= j < |ks| ==> ks[j] < CutOff(vs)
    ensures forall i: nat :: i in ks <==> i < CutOff(vs) && !IsEmptyCode(vs[i])
  {
    KeptFrom(vs, 0)
  }

  /** The elements of `xs` at the positions `ks`, in that order. */
  function Pick<T>(xs: seq<T>, ks: seq<nat>): seq<T>
    requires forall j :: 0 <= j < |ks| ==> ks[j] < |xs|
  {
    seq(|ks|, j requires 0 <= j < |ks| => xs[ks[j]])
  }

  /** What the loop appends from position `from` on: it stops at a marker
      cell, skips empty code cells and appends everything else. */
  function SelectedFrom<T>(xs: seq<T>, vs: seq<CellView>, from: nat): seq<T>
    requires |xs| == |vs| && from <= |xs|
    decreases |xs| - from
  {
    if from == |xs| || StartsExercises(vs[from]) then []
    else if IsEmptyCode(vs[from]) then SelectedFrom(xs, vs, from + 1)
    else [xs[from]] + SelectedFrom(xs, vs, from + 1)
  }

  /** The cell list the filter produces from `xs`, deciding on the views `vs`. */
  function Selected<T>(xs: seq<T>, vs: seq<CellView>): seq<T>
    requires |xs| == |vs|
  {
    SelectedFrom(xs, vs, 0)
  }

  /** The source of the marker cell after the filter has seen it: cut down to
      the text before the marker, unless the marker is at the very start. */
  function CutSource(s: string): (r: string)
    ensures r <= s
    ensures Find(s, ExerciseMarker) > 0 ==> |r| == Find(s, ExerciseMarker) && Find(r, ExerciseMarker) == -1
    ensures Find(s, ExerciseMarker) <= 0 ==> r == s
  {
    var i := Find(s, ExerciseMarker);
    if i > 0 then
      PrefixBeforeFirstOccurrence(s, ExerciseMarker);
      s[..i]
    else s
  }

  // ----- Reference definitions -----

  /** `ys` is `xs` with some elements deleted, order preserved. */
  ghost predicate IsSubsequence<T>(ys: seq<T>, xs: seq<T>)
    decreases |xs|
  {
    if ys == [] then true
    else if xs == [] then false
    else (ys[0] == xs[0] && IsSubsequence(ys[1..], xs[1..])) || IsSubsequence(ys, xs[1..])
  }

  /** `xs` without the elements whose view is an empty code cell. */
  function RemoveEmptyCode<T>(xs: seq<T>, vs: seq<CellView>): seq<T>
    requires |xs| == |vs|
  {
    if xs == [] then []
    else (if IsEmptyCode(vs[0]) then [] else [xs[0]]) + RemoveEmptyCode(xs[1..], vs[1..])
  }

  // ----- Lemmas -----

  /** One step of the loop: position `i` is not a marker cell. */
  lemma SelectedFromStep<T>(xs: seq<T>, vs: seq<CellView>, acc: seq<T>, i: nat)
    requires |xs| == |vs| && i < |xs| && !StartsExercises(vs[i])
    ensures acc + SelectedFrom(xs, vs, i)
         == (if IsEmptyCode(vs[i]) then acc else acc + [xs[i]]) + SelectedFrom(xs, vs, i + 1)
  {
  }

  lemma PickCons<T>(xs: seq<T>, i: nat, ks: seq<nat>)
    requires i < |xs| && forall j :: 0 <= j < |ks| ==> ks[j] < |xs|
    ensures Pick(xs, [i] + ks) == [xs[i]] + Pick(xs, ks)
  {
  }

  lemma {:induction false} SelectedFromIsPick<T>(xs: seq<T>, vs: seq<CellView>, from: nat)
    requires |xs| == |vs| && from <= CutOff(vs)
    ensures SelectedFrom(xs, vs, from) == Pick(xs, KeptFrom(vs, from))
    decreases |vs| - from
  {
    if from < CutOff(vs) {
      SelectedFromIsPick(xs, vs, from + 1);
      if !IsEmptyCode(vs[from]) {
        PickCons(xs, from, KeptFrom(vs, from + 1));
      }
    }
  }

  /** The output is exactly the input's elements at the kept positions, in
      increasing order of position: the positions before the first marker
      cell that do not hold an empty code cell. */
  lemma SelectedIsPick<T>(xs: seq<T>, vs: seq<CellView>)
    requires |xs| == |vs|
    ensures Selected(xs, vs) == Pick(xs, Kept(vs))
  {
    SelectedFromIsPick(xs, vs, 0);
  }

  lemma {:induction false} PickIncreasingIsSubsequence<T>(xs: seq<T>, ks: seq<nat>, from: nat)
    requires from <= |xs|
    requires Increasing(ks) && forall j :: 0 <= j < |ks| ==> from <= ks[j] < |xs|
    ensures IsSubsequence(Pick(xs, ks), xs[from..])
    decreases |xs| - from
  {
    var ys := Pick(xs, ks);
    if ks == [] {
    } else {
      assert from <= ks[0] < |xs|;
      assert xs[from..][1..] == xs[from + 1..];
      if ks[0] == from {
        assert ys[1..] == Pick(xs, ks[1..]);
        PickIncreasingIsSubsequence(xs, ks[1..], from + 1);
      } else {
        PickIncreasingIsSubsequence(xs, ks, from + 1);
      }
    }
  }

  lemma {:induction false} SubsequenceNoLonger<T>(ys: seq<T>, xs: seq<T>)
    requires IsSubsequence(ys, xs)
    ensures |ys| <= |xs|
    decreases |xs|
  {
    if ys != [] {
      if ys[0] == xs[0] && IsSubsequence(ys[1..], xs[1..]) {
        SubsequenceNoLonger(ys[1..], xs[1..]);
      } else {
        SubsequenceNoLonger(ys, xs[1..]);
      }
    }
  }

  /** The output keeps the input's order and only deletes: it is a
      subsequence of the input, and no longer than it. */
  lemma SelectedIsSubsequence<T>(xs: seq<T>, vs: seq<CellView>)
    requires |xs| == |vs|
    ensures IsSubsequence(Selected(xs, vs), xs)
    ensures |Selected(xs, vs)| <= |xs|
  {
    SelectedIsPick(xs, vs);
    PickIncreasingIsSubsequence(xs, Kept(vs), 0);
    assert xs[0..] == xs;
    SubsequenceNoLonger(Selected(xs, vs), xs);
  }

  lemma {:induction false} SelectedFromIsCutThenCleaned<T>(xs: seq<T>, vs: seq<CellView>, from: nat)
    requires |xs| == |vs| && from <= CutOff(vs)
    ensures SelectedFrom(xs, vs, from) == RemoveEmptyCode(xs[from..CutOff(vs)], vs[from..CutOff(vs)])
    decreases |vs| - from
  {
    var k := CutOff(vs);
    if from < k {
      SelectedFromIsCutThenCleaned(xs, vs, from + 1);
      assert xs[from..k][1..] == xs[from + 1..k];
      assert vs[from..k][1..] == vs[from + 1..k];
    }
  }

  /** An independent description of the output: cut the list at the first
      marker cell (that cell excluded), then delete the empty code cells. */
  lemma SelectedIsCutThenCleaned<T>(xs: seq<T>, vs: seq<CellView>)
    requires |xs| == |vs|
    ensures Selected(xs, vs) == RemoveEmptyCode(xs[..CutOff(vs)], vs[..CutOff(vs)])
  {
    SelectedFromIsCutThenCleaned(xs, vs, 0);
    assert xs[0..CutOff(vs)] == xs[..CutOff(vs)];
    assert vs[0..CutOff(vs)] == vs[..CutOff(vs)];
  }

  /** Without any marker cell the filter only deletes the empty code cells. */
  lemma NoMarkerOnlyRemovesEmptyCode<T>(xs: seq<T>, vs: seq<CellView>)
    requires |xs| == |vs|
    requires forall i :: 0 <= i < |vs| ==> !StartsExercises(vs[i])
    ensures Selected(xs, vs) == RemoveEmptyCode(xs, vs)
  {
    SelectedIsCutThenCleaned(xs, vs);
    assert xs[..|xs|] == xs && vs[..|vs|] == vs;
  }

  /** The views of the output hold neither a marker cell nor an empty code cell. */
  lemma SelectedIsClean(vs: seq<CellView>)
    ensures forall j :: 0 <= j < |Selected(vs, vs)| ==>
      !StartsExercises(Selected(vs, vs)[j]) && !IsEmptyCode(Selected(vs, vs)[j])
  {
    SelectedIsPick(vs, vs);
    var ks := Kept(vs);
    forall j | 0 <= j < |ks| ensures !StartsExercises(vs[ks[j]]) && !IsEmptyCode(vs[ks[j]]) {
      assert ks[j] in ks;
    }
  }

  /** When equal elements have equal views, as cell objects read in one
      heap do, the marker cell itself is not in the output, even if the same
      object appears in the list more than once. */
  lemma MarkerCellDropped<T>(xs: seq<T>, vs: seq<CellView>)
    requires |xs| == |vs| && CutOff(vs) < |xs|
    requires forall a, b :: 0 <= a < |xs| && 0 <= b < |xs| && xs[a] == xs[b] ==> vs[a] == vs[b]
    ensures xs[CutOff(vs)] !in Selected(xs, vs)
  {
    SelectedIsPick(xs, vs);
    var k, ks := CutOff(vs), Kept(vs);
    forall j | 0 <= j < |ks| ensures xs[ks[j]] != xs[k] {
      assert ks[j] in ks;
      assert !StartsExercises(vs[ks[j]]) && StartsExercises(vs[k]);
    }
  }

  /** The output holds no marker cell, so a second pass finds nothing to cut:
      its cut-off is the end of the list. */
  lemma NothingToCutInOutput(vs: seq<CellView>)
    ensures CutOff(Selected(vs, vs)) == |Selected(vs, vs)|
  {
    SelectedIsClean(vs);
  }

  lemma {:induction false} SelectedFromAll<T>(xs: seq<T>, vs: seq<CellView>, from: nat)
    requires |xs| == |vs| && from <= |vs|
    requires forall i :: 0 <= i < |vs| ==> !StartsExercises(vs[i]) && !IsEmptyCode(vs[i])
    ensures SelectedFrom(xs, vs, from) == xs[from..]
    decreases |vs| - from
  {
    if from < |vs| {
      SelectedFromAll(xs, vs, from + 1);
      assert xs[from..] == [xs[from]] + xs[from + 1..];
    }
  }

  /** Filtering the output again changes nothing. */
  lemma SelectedIsFixpoint<T>(xs: seq<T>, vs: seq<CellView>)
    requires |xs| == |vs|
    ensures var ys, ws := Selected(xs, vs), Selected(vs, vs);
      |ys| == |ws| && Selected(ys, ws) == ys
  {
    var ys, ws := Selected(xs, vs), Selected(vs, vs);
    SelectedIsClean(vs);
    SelectedIsPick(xs, vs);
    SelectedIsPick(vs, vs);
    SelectedFromAll(ys, ws, 0);
    assert ys[0..] == ys;
  }
}
