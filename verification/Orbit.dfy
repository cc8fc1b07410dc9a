/** Runs of a deterministic partial step, and the pigeonhole facts about runs
    that stay inside a finite set. Used by the path walk and by nexthop resolution. */
module Orbit {
  import opened Wrappers

  /** Where `k` steps from `x` lead, if all of them are possible. */
  ghost function After<T>(step: T -> Option<T>, x: T, k: nat): Option<T> {
    if k == 0 then Some(x)
    else match step(x)
      case None => None
      case Some(y) => After(step, y, k - 1)
  }

  ghost predicate HitsAt<T>(step: T -> Option<T>, x: T, goal: T -> bool, k: nat) {
    After(step, x, k).Some? && goal(After(step, x, k).value)
  }

  ghost predicate StaysIn<T>(step: T -> Option<T>, x: T, space: set<T>, k: nat) {
    forall i: nat | i <= k && After(step, x, i).Some? :: After(step, x, i).value in space
  }

  lemma {:induction false} AfterAdds<T>(step: T -> Option<T>, x: T, i: nat, j: nat)
    ensures After(step, x, i + j) ==
            match After(step, x, i) case None => None case Some(y) => After(step, y, j)
    decreases i
  {
    if i == 0 {
    } else {
      match step(x)
      case None =>
      case Some(y) => AfterAdds(step, y, i - 1, j);
    }
  }

  lemma {:induction false} PrefixDefined<T>(step: T -> Option<T>, x: T, i: nat, k: nat)
    requires i <= k && After(step, x, k).Some?
    ensures After(step, x, i).Some?
  {
    AfterAdds(step, x, i, k - i);
  }

  /** Pigeonhole: more entries than values means two of them coincide. */
  lemma {:induction false} Repeats<T>(xs: seq<T>, space: set<T>) returns (i: nat, j: nat)
    requires |xs| > |space|
    requires forall n | 0 <= n < |xs| :: xs[n] in space
    ensures i < j < |xs| && xs[i] == xs[j]
  {
    var n := |xs| - 1;
    if m :| 0 <= m < n && xs[m] == xs[n] {
      return m, n;
    }
    i, j := Repeats(xs[..n], space - {xs[n]});
  }

  lemma {:induction false} RunRepeats<T>(step: T -> Option<T>, x: T, space: set<T>, k: nat) returns (i: nat, j: nat)
    requires After(step, x, k).Some? && k >= |space| && StaysIn(step, x, space, k)
    ensures i < j <= k && After(step, x, i) == After(step, x, j)
  {
    forall n: nat | n <= k ensures After(step, x, n).Some? {
      PrefixDefined(step, x, n, k);
    }
    var xs := seq(k + 1, n requires 0 <= n < k + 1 => After(step, x, n).value);
    i, j := Repeats(xs, space);
  }

  /** A goal that is ever hit inside a finite space is hit in fewer steps than the space has elements. */
  lemma {:induction false} HitWithinSpace<T>(step: T -> Option<T>, x: T, goal: T -> bool, space: set<T>, k: nat)
    requires HitsAt(step, x, goal, k) && StaysIn(step, x, space, k)
    ensures exists first: nat :: first < |space| && HitsAt(step, x, goal, first)
  {
    if k >= |space| {
      var i, j := RunRepeats(step, x, space, k);
      AfterAdds(step, x, i, k - j);
      AfterAdds(step, x, j, k - j);
      HitWithinSpace(step, x, goal, space, k - (j - i));
    }
  }

  /** A run that visits the same place twice never stops. */
  lemma {:induction false} LoopNeverStops<T>(step: T -> Option<T>, x: T, i: nat, j: nat, n: nat)
    requires i < j && After(step, x, j).Some? && After(step, x, i) == After(step, x, j)
    ensures After(step, x, n).Some?
  {
    if n <= j {
      PrefixDefined(step, x, n, j);
    } else {
      LoopNeverStops(step, x, i, j, n - (j - i));
      AfterAdds(step, x, i, n - j);
      AfterAdds(step, x, j, n - j);
    }
  }
}
