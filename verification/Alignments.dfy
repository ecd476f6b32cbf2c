/** Which items of two lists an edit script pairs with each other. */
module Alignments {
  import opened Wrappers
  import opened ListDiff

  /** For each item of the first list its partner in the second one, if it has one. */
  type Alignment = seq<Option<nat>>

  function AlignmentOf(es: EditScript): (at: Alignment)
    ensures |at| == LenX(es)
    ensures forall i | 0 <= i < |at| && at[i].Some? :: at[i].value < LenY(es)
  {
    if es == [] then []
    else
      var init := es[..|es| - 1];
      match es[|es| - 1]
      case Identity => AlignmentOf(init) + [Some(LenY(init))]
      case Modified => AlignmentOf(init) + [Some(LenY(init))]
      case UniqueX => AlignmentOf(init) + [None]
      case UniqueY => AlignmentOf(init)
  }

  /** Partners stand in the same order in both lists, the second of which has ny items. */
  ghost predicate Ordered(at: Alignment, ny: nat) {
    && (forall i | 0 <= i < |at| && at[i].Some? :: at[i].value < ny)
    && forall i, j | 0 <= i < j < |at| && at[i].Some? && at[j].Some? :: at[i].value < at[j].value
  }

  lemma {:induction false} AlignmentIsOrdered(es: EditScript)
    ensures Ordered(AlignmentOf(es), LenY(es))
  {
    if es != [] {
      AlignmentIsOrdered(es[..|es| - 1]);
    }
  }

  ghost predicate StartsAligned(at: Alignment, k: nat) {
    k <= |at| && forall i | 0 <= i < k :: at[i] == Some(i)
  }

  ghost predicate EndsAligned(at: Alignment, ny: nat, k: nat) {
    k <= |at| && k <= ny && forall i | |at| - k <= i < |at| :: at[i] == Some(ny - (|at| - i))
  }

  lemma {:induction false} MatchesAtStart(es: EditScript, k: nat)
    requires StartsWithMatches(es, k)
    ensures StartsAligned(AlignmentOf(es), k)
  {
    if k > 0 {
      var init := es[..|es| - 1];
      if k < |es| {
        MatchesAtStart(init, k);
      } else {
        MatchesAtStart(init, k - 1);
        CountIdentity(init);
      }
    }
  }

  lemma {:induction false} MatchesAtEnd(es: EditScript, k: nat)
    requires EndsWithMatches(es, k)
    ensures EndsAligned(AlignmentOf(es), LenY(es), k)
  {
    if k > 0 {
      MatchesAtEnd(es[..|es| - 1], k - 1);
    }
  }
}
