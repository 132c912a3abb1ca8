/** drm_pick_crtcs of drm_fb_helper.c: an exhaustive search for the best assignment of CRTCs to
    connectors, over arrays that each level overwrites. */
module PickCrtcs {
  import opened Lists
  import opened ModeEqual

  /** A connector with the mode chosen for it; `possible` holds the CRTCs its best encoder can drive,
      and is None if it has no encoder. */
  datatype Connector = Connector(mode: Option<Mode>, connected: bool, cmdline: bool, preferred: bool,
                                 possible: Option<set<nat>>)

  datatype Helper = Helper(connectors: seq<Connector>, crtcs: nat)

  type Assignment = seq<Option<nat>>

  function Weight(c: Connector): nat {
    1 + (if c.connected then 1 else 0) + (if c.cmdline then 1 else 0) + if c.preferred then 1 else 0
  }

  /** A connector that gets a CRTC counts; being connected, being named on the command line and having a
      preferred mode count as much again, each. */
  lemma WeightGains(c: Connector)
    ensures Weight(c.(connected := false, cmdline := false, preferred := false)) == 1
    ensures Weight(c.(connected := true)) == Weight(c.(connected := false)) + 1
    ensures Weight(c.(cmdline := true)) == Weight(c.(cmdline := false)) + 1
    ensures Weight(c.(preferred := true)) == Weight(c.(preferred := false)) + 1
  {
  }

  // ---------------------------------------------------------------- what is sought

  /** Two connectors may share a CRTC only if it is the only one and their modes are the same. */
  predicate MayShare(h: Helper, i: nat, j: nat)
    requires i < |h.connectors| && j < |h.connectors|
  {
    h.crtcs == 1 && h.connectors[i].mode.Some? && h.connectors[j].mode.Some?
    && Same(h.connectors[i].mode.value, h.connectors[j].mode.value)
  }

  /** Connector i may get CRTC c. */
  predicate CanDrive(h: Helper, i: nat, c: nat)
    requires i < |h.connectors|
  {
    var k := h.connectors[i];
    k.mode.Some? && k.possible.Some? && c < h.crtcs && c in k.possible.value
  }

  ghost predicate ValidAt(h: Helper, a: Assignment, i: nat)
    requires i < |h.connectors| && i < |a|
  {
    a[i].Some? ==>
      && CanDrive(h, i, a[i].value)
      && forall j :: 0 <= j < i && a[j] == a[i] ==> MayShare(h, j, i)
  }

  ghost predicate ValidFrom(h: Helper, a: Assignment, n: nat, end: nat)
    requires end <= |h.connectors| && end <= |a|
  {
    forall i :: n <= i < end ==> ValidAt(h, a, i)
  }

  /** The total weight of the connectors from n on that get a CRTC. */
  function Score(h: Helper, a: Assignment, n: nat): nat
    requires n <= |h.connectors| <= |a|
    decreases |h.connectors| - n
  {
    if n == |h.connectors| then 0
    else (if a[n].Some? then Weight(h.connectors[n]) else 0) + Score(h, a, n + 1)
  }

  /** b completes the assignment `prefix` of the first connectors. */
  ghost predicate Completes(h: Helper, prefix: Assignment, b: Assignment) {
    |prefix| <= |h.connectors| == |b| && prefix == b[..|prefix|] && ValidFrom(h, b, |prefix|, |h.connectors|)
  }

  ghost predicate Optimal(h: Helper, prefix: Assignment, r: int)
    requires |prefix| <= |h.connectors|
  {
    forall b: Assignment :: Completes(h, prefix, b) ==> Score(h, b, |prefix|) <= r
  }

  /** No completion that leaves the next connector without a CRTC, or gives it one below c, beats r. */
  ghost predicate OptimalBelow(h: Helper, prefix: Assignment, c: nat, r: int)
    requires |prefix| < |h.connectors|
  {
    forall b: Assignment :: Completes(h, prefix, b) && (b[|prefix|].Some? ==> b[|prefix|].value < c) ==>
      Score(h, b, |prefix|) <= r
  }

  // ---------------------------------------------------------------- the search tree

  lemma CompletesNext(h: Helper, prefix: Assignment, b: Assignment)
    requires |prefix| < |h.connectors| && Completes(h, prefix, b)
    ensures Completes(h, prefix + [b[|prefix|]], b)
    ensures ValidAt(h, b, |prefix|)
    ensures Score(h, b, |prefix|)
            == (if b[|prefix|].Some? then Weight(h.connectors[|prefix|]) else 0) + Score(h, b, |prefix| + 1)
  {
    hide ValidAt;
    assert b[..|prefix| + 1] == prefix + [b[|prefix|]];
  }

  lemma WithoutCrtc(h: Helper, prefix: Assignment, r: int)
    requires |prefix| < |h.connectors| && Optimal(h, prefix + [None], r)
    ensures OptimalBelow(h, prefix, 0, r)
  {
    hide ValidFrom, Score;
    forall b: Assignment | Completes(h, prefix, b) && (b[|prefix|].Some? ==> b[|prefix|].value < 0)
      ensures Score(h, b, |prefix|) <= r
    {
      CompletesNext(h, prefix, b);
      assert prefix + [b[|prefix|]] == prefix + [None];
    }
  }

  /** If the next connector can get no CRTC, leaving it out is optimal. */
  lemma Hopeless(h: Helper, prefix: Assignment, r: int)
    requires |prefix| < |h.connectors| && Optimal(h, prefix + [None], r)
    requires h.connectors[|prefix|].mode.None? || h.connectors[|prefix|].possible.None?
    ensures Optimal(h, prefix, r)
  {
    hide ValidFrom, Score;
    WithoutCrtc(h, prefix, r);
    forall b: Assignment | Completes(h, prefix, b)
      ensures Score(h, b, |prefix|) <= r
    {
      CompletesNext(h, prefix, b);
      assert b[|prefix|].None?;
    }
  }

  /** CRTC c may not be given to the next connector. */
  lemma SkipCrtc(h: Helper, prefix: Assignment, c: nat, r: int)
    requires |prefix| < |h.connectors| && OptimalBelow(h, prefix, c, r)
    requires !CanDrive(h, |prefix|, c)
             || exists j :: 0 <= j < |prefix| && prefix[j] == Some(c) && !MayShare(h, j, |prefix|)
    ensures OptimalBelow(h, prefix, c + 1, r)
  {
    hide ValidFrom, Score, CanDrive, MayShare;
    forall b: Assignment | Completes(h, prefix, b) && (b[|prefix|].Some? ==> b[|prefix|].value < c + 1)
      ensures Score(h, b, |prefix|) <= r
    {
      CompletesNext(h, prefix, b);
      SamePrefix(h, prefix, b);
      assert b[|prefix|] != Some(c);
    }
  }

  lemma SamePrefix(h: Helper, prefix: Assignment, b: Assignment)
    requires Completes(h, prefix, b)
    ensures forall j :: 0 <= j < |prefix| ==> b[j] == prefix[j]
  {
  }

  /** CRTC c has been tried. */
  lemma TryCrtc(h: Helper, prefix: Assignment, c: nat, rest: int, r: int)
    requires |prefix| < |h.connectors| && OptimalBelow(h, prefix, c, r)
    requires Optimal(h, prefix + [Some(c)], rest)
    ensures OptimalBelow(h, prefix, c + 1,
            if Weight(h.connectors[|prefix|]) + rest > r then Weight(h.connectors[|prefix|]) + rest else r)
  {
    hide ValidFrom, Score, Weight;
    forall b: Assignment | Completes(h, prefix, b) && (b[|prefix|].Some? ==> b[|prefix|].value < c + 1)
      ensures Score(h, b, |prefix|) <=
              if Weight(h.connectors[|prefix|]) + rest > r then Weight(h.connectors[|prefix|]) + rest else r
    {
      CompletesNext(h, prefix, b);
      if b[|prefix|] == Some(c) {
        assert prefix + [b[|prefix|]] == prefix + [Some(c)];
      }
    }
  }

  lemma AllTried(h: Helper, prefix: Assignment, r: int)
    requires |prefix| < |h.connectors| && OptimalBelow(h, prefix, h.crtcs, r)
    ensures Optimal(h, prefix, r)
  {
    hide ValidFrom, Score;
    forall b: Assignment | Completes(h, prefix, b)
      ensures Score(h, b, |prefix|) <= r
    {
      CompletesNext(h, prefix, b);
    }
  }

  lemma NothingLeft(h: Helper, prefix: Assignment)
    requires |prefix| == |h.connectors|
    ensures Optimal(h, prefix, 0)
  {
  }

  /** Only the first user of a CRTC is looked at: with a valid prefix that settles it for all. */
  lemma FirstUserDecides(h: Helper, a: Assignment, n: nat, c: nat, first: nat)
    requires n < |h.connectors| && n <= |a| && ValidFrom(h, a, 0, n)
    requires first <= n && (forall j :: 0 <= j < first ==> a[j] != Some(c))
    requires first < n ==> a[first] == Some(c)
    requires h.connectors[n].mode.Some?
    ensures (forall j :: 0 <= j < n && a[j] == Some(c) ==> MayShare(h, j, n)) <==> first == n || MayShare(h, first, n)
  {
    if first < n && MayShare(h, first, n) {
      forall j | 0 <= j < n && a[j] == Some(c)
        ensures MayShare(h, j, n)
      {
        assert ValidAt(h, a, j);
        if j != first {
          assert MayShare(h, first, j);
          SameIsEquivalence(h.connectors[j].mode.value, h.connectors[first].mode.value, h.connectors[n].mode.value);
          SameIsEquivalence(h.connectors[first].mode.value, h.connectors[j].mode.value, h.connectors[n].mode.value);
        }
      }
    }
  }

  // ---------------------------------------------------------------- the search

  method FirstUser(best: array<Option<nat>>, n: nat, c: nat) returns (o: nat)
    requires n <= best.Length
    ensures o <= n && (forall j :: 0 <= j < o ==> best[j] != Some(c)) && (o < n ==> best[o] == Some(c))
  {
    o := 0;
    while o < n
      invariant o <= n && forall j :: 0 <= j < o ==> best[j] != Some(c)
    {
      if best[o] == Some(c) {
        break;
      }
      o := o + 1;
    }
  }

  /** What a call leaves in the array: the prefix as it was, valid choices after it, and the score. */
  ghost predicate Leaves(h: Helper, before: Assignment, after: Assignment, n: nat, r: int)
    requires n <= |h.connectors| <= |before| == |after|
  {
    after[..n] == before[..n] && ValidFrom(h, after, 0, |h.connectors|) && Score(h, after, n) == r
  }

  lemma LeavesNothing(h: Helper, a: Assignment)
    requires |h.connectors| <= |a| && ValidFrom(h, a, 0, |h.connectors|)
    ensures Leaves(h, a, a, |h.connectors|, 0)
  {
  }

  /** A choice for connector n, followed by what the deeper call leaves. */
  lemma LeavesChoice(h: Helper, before: Assignment, chosen: Assignment, after: Assignment, n: nat, rest: int)
    requires n < |h.connectors| <= |before| == |after| == |chosen| && chosen[..n] == before[..n]
    requires Leaves(h, chosen, after, n + 1, rest)
    ensures Leaves(h, before, after, n, rest + if chosen[n].Some? then Weight(h.connectors[n]) else 0)
  {
    hide ValidFrom, Weight;
    assert after[n] == after[..n + 1][n] == chosen[..n + 1][n] == chosen[n];
    assert after[..n] == after[..n + 1][..n] == chosen[..n + 1][..n] == chosen[..n];
  }

  lemma PrefixValid(h: Helper, a: Assignment, b: Assignment, n: nat)
    requires n <= |h.connectors| <= |a| && n <= |b| && a[..n] == b[..n] && ValidFrom(h, a, 0, n)
    ensures ValidFrom(h, b, 0, n)
  {
    hide CanDrive, MayShare;
    forall i | 0 <= i < n
      ensures ValidAt(h, b, i)
    {
      assert ValidAt(h, a, i);
      assert forall j :: 0 <= j < n ==> a[j] == a[..n][j] == b[..n][j] == b[j];
    }
  }

  method Copy(from: array<Option<nat>>, to: array<Option<nat>>, n: nat)
    requires n <= from.Length == to.Length && from != to
    modifies to
    ensures to[..n] == from[..n] && to[n..] == old(to[n..])
  {
    forall j | 0 <= j < n {
      to[j] := from[j];
    }
  }

  /** A CRTC that may be given to connector n after the choices made before it. */
  ghost predicate Eligible(h: Helper, a: Assignment, n: nat, c: nat)
    requires n < |h.connectors| && n <= |a|
  {
    CanDrive(h, n, c) && forall j :: 0 <= j < n && a[j] == Some(c) ==> MayShare(h, j, n)
  }

  lemma NotEligible(h: Helper, a: Assignment, n: nat, c: nat, r: int)
    requires n < |h.connectors| && n <= |a| && !Eligible(h, a, n, c) && OptimalBelow(h, a[..n], c, r)
    ensures OptimalBelow(h, a[..n], c + 1, r)
  {
    hide Completes, Score, CanDrive, MayShare, OptimalBelow;
    if CanDrive(h, n, c) {
      var j :| 0 <= j < n && a[j] == Some(c) && !MayShare(h, j, n);
      assert a[..n][j] == Some(c);
    }
    SkipCrtc(h, a[..n], c, r);
  }

  lemma EligibleExtends(h: Helper, a: Assignment, n: nat, c: nat, b: Assignment)
    requires n < |h.connectors| && n <= |a| && Eligible(h, a, n, c) && ValidFrom(h, a, 0, n)
    requires n < |b| && |h.connectors| <= |b| && b[..n] == a[..n] && b[n] == Some(c)
    ensures ValidFrom(h, b, 0, n + 1) && b[..n + 1] == a[..n] + [Some(c)]
  {
    hide CanDrive, MayShare;
    assert forall j :: 0 <= j < n ==> a[j] == a[..n][j] == b[..n][j] == b[j];
    forall i | 0 <= i < n + 1
      ensures ValidAt(h, b, i)
    {
      if i < n {
        assert ValidAt(h, a, i);
      }
    }
  }

  /** The code's test: the encoder can drive c, and the first user of c, if any, may share it. */
  method IsEligible(h: Helper, best: array<Option<nat>>, n: nat, c: nat) returns (ok: bool)
    requires n < |h.connectors| <= best.Length && ValidFrom(h, best[..], 0, n)
    requires h.connectors[n].mode.Some? && h.connectors[n].possible.Some? && c < h.crtcs
    ensures ok <==> Eligible(h, best[..], n, c)
  {
    hide ValidFrom, Same;
    if c !in h.connectors[n].possible.value {
      return false;
    }
    var o := FirstUser(best, n, c);
    FirstUserDecides(h, best[..], n, c, o);
    if o < n {
      if h.crtcs > 1 {
        return false;
      }
      UserHasMode(h, best[..], n, o);
      if !Same(h.connectors[o].mode.value, h.connectors[n].mode.value) {
        return false;
      }
    }
    return true;
  }

  lemma UserHasMode(h: Helper, a: Assignment, n: nat, o: nat)
    requires o < n <= |h.connectors| && n <= |a| && ValidFrom(h, a, 0, n) && a[o].Some?
    ensures h.connectors[o].mode.Some?
  {
    assert ValidAt(h, a, o);
  }

  lemma ValidPart(h: Helper, before: Assignment, after: Assignment, n: nat, r: int)
    requires n <= |h.connectors| <= |before| == |after| && Leaves(h, before, after, n, r)
    ensures ValidFrom(h, after, 0, n) && after[..n] == before[..n]
  {
  }

  lemma NoneExtends(h: Helper, a: Assignment, n: nat)
    requires n < |h.connectors| <= |a| && ValidFrom(h, a, 0, n)
    ensures ValidFrom(h, a[n := None], 0, n + 1) && a[n := None][..n + 1] == a[..n] + [None]
  {
    PrefixValid(h, a, a[n := None], n);
    assert ValidAt(h, a[n := None], n);
  }

  /** drm_pick_crtcs: with memory for its arrays it returns the best total weight of all valid
      completions of the first n choices; in any case it leaves a valid completion of that weight. */
  method Pick(h: Helper, best: array<Option<nat>>, n: nat, memory: bool) returns (score: nat)
    requires n <= |h.connectors| <= best.Length && ValidFrom(h, best[..], 0, n)
    modifies best
    ensures Leaves(h, old(best[..]), best[..], n, score)
    ensures memory ==> Optimal(h, old(best[..n]), score)
    decreases |h.connectors| - n, 1
  {
    hide Leaves, Optimal, ValidFrom, Completes, Score, OptimalBelow, Weight, CanDrive, MayShare;
    ghost var before := best[..];
    if n == |h.connectors| {
      LeavesNothing(h, best[..]);
      NothingLeft(h, best[..n]);
      return 0;
    }
    NoneExtends(h, before, n);
    best[n] := None;
    ghost var chosen := best[..];
    score := Pick(h, best, n + 1, memory);
    LeavesChoice(h, before, chosen, best[..], n, score);
    var me := h.connectors[n];
    if me.mode.None? {
      if memory {
        Hopeless(h, before[..n], score);
      }
      return;
    }
    if !memory {
      var failed: bool := *;
      if failed {
        return;
      }
    }
    var crtcs := new Option<nat>[best.Length](_ => None);
    if me.possible.None? {
      if memory {
        Hopeless(h, before[..n], score);
      }
      return;
    }
    if memory {
      WithoutCrtc(h, before[..n], score);
    }
    var c := 0;
    while c < h.crtcs
      invariant c <= h.crtcs
      invariant Leaves(h, before, best[..], n, score)
      invariant memory ==> OptimalBelow(h, before[..n], c, score)
    {
      ValidPart(h, before, best[..], n, score);
      var ok := IsEligible(h, best, n, c);
      if ok {
        score := TryCandidate(h, before, best, crtcs, n, c, score, memory);
      } else if memory {
        NotEligible(h, best[..], n, c, score);
      }
      c := c + 1;
    }
    if memory {
      AllTried(h, before[..n], score);
    }
  }

  /** One turn of the loop for an eligible CRTC: the array is replaced only by a better completion. */
  method TryCandidate(h: Helper, ghost before: Assignment, best: array<Option<nat>>, crtcs: array<Option<nat>>,
                      n: nat, c: nat, bestScore: nat, memory: bool) returns (score: nat)
    requires n < |h.connectors| <= best.Length == crtcs.Length == |before| && best != crtcs
    requires Leaves(h, before, best[..], n, bestScore) && Eligible(h, best[..], n, c)
    requires memory ==> OptimalBelow(h, before[..n], c, bestScore)
    modifies best, crtcs
    ensures Leaves(h, before, best[..], n, score)
    ensures memory ==> OptimalBelow(h, before[..n], c + 1, score)
    decreases |h.connectors| - n, 0
  {
    hide Leaves, Optimal, ValidFrom, Completes, Score, OptimalBelow, Weight, CanDrive, MayShare, Eligible;
    ValidPart(h, before, best[..], n, bestScore);
    crtcs[n] := Some(c);
    Copy(best, crtcs, n);
    ghost var chosen := crtcs[..];
    assert chosen[n] == Some(c) by {
      assert chosen[n] == crtcs[n..][0];
    }
    EligibleExtends(h, best[..], n, c, chosen);
    var rest := Pick(h, crtcs, n + 1, memory);
    LeavesChoice(h, before, chosen, crtcs[..], n, rest);
    score := Weight(h.connectors[n]) + rest;
    if memory {
      TryCrtc(h, before[..n], c, rest, bestScore);
    }
    if score > bestScore {
      Copy(crtcs, best, best.Length);
      assert best[..] == crtcs[..];
    } else {
      score := bestScore;
    }
  }

  /** Called with n = 0, as drm_setup_crtcs does: the overall optimum. */
  method PickAll(h: Helper, best: array<Option<nat>>, memory: bool) returns (score: nat)
    requires |h.connectors| <= best.Length
    modifies best
    ensures ValidFrom(h, best[..], 0, |h.connectors|) && Score(h, best[..], 0) == score
    ensures memory ==> forall b: Assignment :: |b| == |h.connectors| && ValidFrom(h, b, 0, |b|) ==>
              Score(h, b, 0) <= score
  {
    score := Pick(h, best, 0, memory);
    assert best[..0] == [];
    assert forall b: Assignment :: b[..0] == [];
  }
}
