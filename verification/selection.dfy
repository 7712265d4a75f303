/**
 The numbers a loop hands out when it skips some elements with `continue` (or
 an `except` that swallows the error) while still numbering every element by
 its own 1-based position.
 */
module Selection {

  /** The 1-based positions `k` with `keep[k - 1]`, in increasing order. */
  function Numbers(keep: seq<bool>): (r: seq<nat>)
    ensures |r| <= |keep|
    decreases |keep|
  {
    if |keep| == 0 then []
    else Numbers(keep[..|keep| - 1]) + (if keep[|keep| - 1] then [|keep|] else [])
  }

  /** Every number names a kept position. */
  lemma {:induction false} NumbersInRange(keep: seq<bool>)
    ensures forall j :: 0 <= j < |Numbers(keep)| ==>
              1 <= Numbers(keep)[j] <= |keep| && keep[Numbers(keep)[j] - 1]
    decreases |keep|
  {
    if |keep| > 0 {
      var init := keep[..|keep| - 1];
      NumbersInRange(init);
      var ns := Numbers(keep);
      var nsInit := Numbers(init);
      forall j | 0 <= j < |ns|
        ensures 1 <= ns[j] <= |keep| && keep[ns[j] - 1]
      {
        if j < |nsInit| {
          assert ns[j] == nsInit[j];
          assert init[ns[j] - 1] == keep[ns[j] - 1];
        }
      }
    }
  }

  /** The numbers strictly increase, so none repeats. */
  lemma {:induction false} NumbersIncreasing(keep: seq<bool>)
    ensures forall j1, j2 :: 0 <= j1 < j2 < |Numbers(keep)| ==> Numbers(keep)[j1] < Numbers(keep)[j2]
    decreases |keep|
  {
    if |keep| > 0 {
      var init := keep[..|keep| - 1];
      NumbersIncreasing(init);
      NumbersInRange(init);
      var ns := Numbers(keep);
      var nsInit := Numbers(init);
      forall j1, j2 | 0 <= j1 < j2 < |ns|
        ensures ns[j1] < ns[j2]
      {
        assert ns[j1] == nsInit[j1];
        if j2 < |nsInit| {
          assert ns[j2] == nsInit[j2];
        }
      }
    }
  }

  /** Every kept position is numbered. */
  lemma {:induction false} NumbersComplete(keep: seq<bool>)
    ensures forall k :: 0 <= k < |keep| && keep[k] ==> k + 1 in Numbers(keep)
    decreases |keep|
  {
    if |keep| > 0 {
      var init := keep[..|keep| - 1];
      NumbersComplete(init);
      var ns := Numbers(keep);
      forall k | 0 <= k < |keep| && keep[k]
        ensures k + 1 in ns
      {
        if k < |init| {
          assert init[k] == keep[k];
          assert k + 1 in Numbers(init);
        } else {
          assert ns[|ns| - 1] == k + 1;
        }
      }
    }
  }

  /** Two kept positions `a < b` are handed out, `a + 1` before `b + 1`. */
  lemma NumbersPositions(keep: seq<bool>, a: nat, b: nat) returns (j1: nat, j2: nat)
    requires a < b < |keep| && keep[a] && keep[b]
    ensures j1 < j2 < |Numbers(keep)|
    ensures Numbers(keep)[j1] == a + 1 && Numbers(keep)[j2] == b + 1
  {
    var ns := Numbers(keep);
    NumbersComplete(keep);
    NumbersIncreasing(keep);
    assert a + 1 in ns && b + 1 in ns;
    j1 :| 0 <= j1 < |ns| && ns[j1] == a + 1;
    j2 :| 0 <= j2 < |ns| && ns[j2] == b + 1;
  }

  /** Which elements of `xs` satisfy `keep`. */
  function Flags<T>(xs: seq<T>, keep: T -> bool): (flags: seq<bool>)
    ensures |flags| == |xs|
  {
    seq(|xs|, i requires 0 <= i < |xs| => keep(xs[i]))
  }

  /** A list comprehension `[f(x) for x in xs if keep(x)]`. */
  function Filtered<T, U>(xs: seq<T>, keep: T -> bool, f: T -> U): (r: seq<U>)
    ensures |r| <= |xs|
    decreases |xs|
  {
    if |xs| == 0 then []
    else Filtered(xs[..|xs| - 1], keep, f) + (if keep(xs[|xs| - 1]) then [f(xs[|xs| - 1])] else [])
  }

  /**
   A comprehension keeps order and duplicates: result j is `f` of the j-th
   element that satisfies `keep`, at 1-based position `Numbers(Flags(xs, keep))[j]`.
   */
  lemma {:induction false} FilteredAt<T, U>(xs: seq<T>, keep: T -> bool, f: T -> U)
    ensures |Filtered(xs, keep, f)| == |Numbers(Flags(xs, keep))|
    ensures forall j :: 0 <= j < |Filtered(xs, keep, f)| ==>
              1 <= Numbers(Flags(xs, keep))[j] <= |xs|
              && Filtered(xs, keep, f)[j] == f(xs[Numbers(Flags(xs, keep))[j] - 1])
    decreases |xs|
  {
    if |xs| > 0 {
      var init := xs[..|xs| - 1];
      FilteredAt(init, keep, f);
      var flags := Flags(xs, keep);
      assert flags[..|xs| - 1] == Flags(init, keep);
      var ns := Numbers(flags);
      var nsInit := Numbers(Flags(init, keep));
      assert ns == nsInit + (if flags[|xs| - 1] then [|xs|] else []);
      forall j | 0 <= j < |Filtered(xs, keep, f)|
        ensures 1 <= ns[j] <= |xs| && Filtered(xs, keep, f)[j] == f(xs[ns[j] - 1])
      {
        if j < |nsInit| {
          assert ns[j] == nsInit[j];
          assert init[ns[j] - 1] == xs[ns[j] - 1];
        }
      }
    }
  }
}
