/** Order-preserving selection: Where(pred), as a relation between a list
    and the list it keeps. `keep[k]` says whether the element at k passes. */
module Selections {

  /** `kept` is `xs` at the strictly increasing positions `idx`, and those
      are exactly the positions whose element passes: `kept` holds the
      passing elements in their order in `xs`, each as often as it occurs. */
  ghost predicate Selects<T>(kept: seq<T>, xs: seq<T>, keep: seq<bool>, idx: seq<nat>) {
    |keep| == |xs| && |idx| == |kept| &&
    (forall i :: 0 <= i < |idx| ==> idx[i] < |xs| && kept[i] == xs[idx[i]] && keep[idx[i]]) &&
    (forall i, j :: 0 <= i < j < |idx| ==> idx[i] < idx[j]) &&
    (forall k :: 0 <= k < |xs| && keep[k] ==> k in idx)
  }

  /** `kept` is the subsequence of the passing elements of `xs`. */
  ghost predicate KeptInOrder<T>(kept: seq<T>, xs: seq<T>, keep: seq<bool>) {
    exists idx :: Selects(kept, xs, keep, idx)
  }

  /** Positions in the tail of a list, moved one place on. */
  function Shifted(tail: seq<nat>): (idx: seq<nat>)
    ensures |idx| == |tail| && forall i :: 0 <= i < |tail| ==> idx[i] == tail[i] + 1
  {
    seq(|tail|, i requires 0 <= i < |tail| => tail[i] + 1)
  }

  /** A selection from the tail is one from the whole list once its
      positions are moved on, when the head does not pass. */
  lemma SelectsConsDrop<T>(xs: seq<T>, keep: seq<bool>, rest: seq<T>, tail: seq<nat>)
    requires |xs| > 0 && |keep| == |xs| && !keep[0]
    requires Selects(rest, xs[1..], keep[1..], tail)
    ensures Selects(rest, xs, keep, Shifted(tail))
  {
    var idx := Shifted(tail);
    forall i | 0 <= i < |idx|
      ensures idx[i] < |xs| && rest[i] == xs[idx[i]] && keep[idx[i]]
    {
      assert xs[1..][tail[i]] == xs[idx[i]] && keep[1..][tail[i]] == keep[idx[i]];
    }
    forall k | 0 <= k < |xs| && keep[k]
      ensures k in idx
    {
      assert keep[1..][k - 1] == keep[k];
      var i :| 0 <= i < |tail| && tail[i] == k - 1;
      assert idx[i] == k;
    }
  }

  /** The same when the head passes: position 0 comes first. */
  lemma SelectsConsKeep<T>(xs: seq<T>, keep: seq<bool>, rest: seq<T>, tail: seq<nat>)
    requires |xs| > 0 && |keep| == |xs| && keep[0]
    requires Selects(rest, xs[1..], keep[1..], tail)
    ensures Selects([xs[0]] + rest, xs, keep, [0] + Shifted(tail))
  {
    ConsKeepPositions(xs, keep, rest, tail);
    ConsKeepIncreasing(tail);
    ConsKeepCovers(keep, tail);
  }

  lemma ConsKeepPositions<T>(xs: seq<T>, keep: seq<bool>, rest: seq<T>, tail: seq<nat>)
    requires |xs| > 0 && |keep| == |xs| && keep[0] && |tail| == |rest|
    requires forall i :: 0 <= i < |tail| ==> tail[i] < |xs| - 1 && rest[i] == xs[1..][tail[i]] && keep[1..][tail[i]]
    ensures var idx, kept := [0] + Shifted(tail), [xs[0]] + rest;
      forall i :: 0 <= i < |idx| ==> idx[i] < |xs| && kept[i] == xs[idx[i]] && keep[idx[i]]
  {
    var idx, kept := [0] + Shifted(tail), [xs[0]] + rest;
    forall i | 0 <= i < |idx|
      ensures idx[i] < |xs| && kept[i] == xs[idx[i]] && keep[idx[i]]
    {
      if i > 0 {
        assert idx[i] == tail[i - 1] + 1 && kept[i] == rest[i - 1];
        assert xs[1..][tail[i - 1]] == xs[idx[i]] && keep[1..][tail[i - 1]] == keep[idx[i]];
      }
    }
  }

  lemma ConsKeepIncreasing(tail: seq<nat>)
    requires forall i, j :: 0 <= i < j < |tail| ==> tail[i] < tail[j]
    ensures var idx := [0] + Shifted(tail);
      forall i, j :: 0 <= i < j < |idx| ==> idx[i] < idx[j]
  {
    var idx := [0] + Shifted(tail);
    forall i, j | 0 <= i < j < |idx|
      ensures idx[i] < idx[j]
    {
      assert idx[j] == tail[j - 1] + 1;
      if i > 0 {
        assert idx[i] == tail[i - 1] + 1;
      }
    }
  }

  lemma ConsKeepCovers(keep: seq<bool>, tail: seq<nat>)
    requires |keep| > 0
    requires forall k :: 0 <= k < |keep| - 1 && keep[1..][k] ==> k in tail
    ensures forall k :: 0 <= k < |keep| && keep[k] ==> k in [0] + Shifted(tail)
  {
    var idx := [0] + Shifted(tail);
    forall k | 0 <= k < |keep| && keep[k]
      ensures k in idx
    {
      if k == 0 {
        assert idx[0] == 0;
      } else {
        assert keep[1..][k - 1] == keep[k];
        var i :| 0 <= i < |tail| && tail[i] == k - 1;
        assert idx[i + 1] == k;
      }
    }
  }

  /** Appending an element that does not pass keeps the selection. */
  lemma SelectsSnocDrop<T>(xs: seq<T>, keep: seq<bool>, kept: seq<T>, idx: seq<nat>, x: T)
    requires Selects(kept, xs, keep, idx)
    ensures Selects(kept, xs + [x], keep + [false], idx)
  {
    forall i | 0 <= i < |idx|
      ensures idx[i] < |xs + [x]| && kept[i] == (xs + [x])[idx[i]] && (keep + [false])[idx[i]]
    {
    }
  }

  /** Appending an element that passes adds its position last. */
  lemma SelectsSnocKeep<T>(xs: seq<T>, keep: seq<bool>, kept: seq<T>, idx: seq<nat>, x: T)
    requires Selects(kept, xs, keep, idx)
    ensures Selects(kept + [x], xs + [x], keep + [true], idx + [|xs|])
  {
    var idx', kept' := idx + [|xs|], kept + [x];
    forall i | 0 <= i < |idx'|
      ensures idx'[i] < |xs + [x]| && kept'[i] == (xs + [x])[idx'[i]] && (keep + [true])[idx'[i]]
    {
    }
    forall k | 0 <= k < |xs| + 1 && (keep + [true])[k]
      ensures k in idx'
    {
      if k < |xs| {
        assert keep[k];
        var i :| 0 <= i < |idx| && idx[i] == k;
        assert idx'[i] == k;
      } else {
        assert idx'[|idx|] == k;
      }
    }
  }
}
