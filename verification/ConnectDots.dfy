/** Model of connectDots (internal/engine/change.go): which `...` of the minus side each `...` of the plus side continues. */
module ConnectDots {
  import opened Tree
  import Sorting

  /** p stands before q in the patch. */
  predicate Before(p: Pos, q: Pos) {
    p.Line() < q.Line() || (p.Line() == q.Line() && p.Column() < q.Column())
  }

  /** The line and the column, from 1 on, of a byte of a text. */
  function Place(content: string, offset: nat): (nat, nat)
    requires offset <= |content|
  {
    if offset == 0 then (1, 1)
    else
      var (line, column) := Place(content, offset - 1);
      if content[offset - 1] == '\n' then (line + 1, 1) else (line, column + 1)
  }

  /** The byte at this offset, with its line and column. */
  function PosAt(content: string, offset: nat): Pos
    requires offset <= |content|
  {
    At(offset, Place(content, offset).0, Place(content, offset).1)
  }

  lemma {:induction false} LaterIsBehind(content: string, i: nat, j: nat)
    requires i < j <= |content|
    ensures Before(PosAt(content, i), PosAt(content, j))
    decreases j
  {
    if i < j - 1 {
      LaterIsBehind(content, i, j - 1);
    }
  }

  predicate SamePlace(p: Pos, q: Pos) {
    p.Line() == q.Line() && p.Column() == q.Column()
  }

  /** Places are in the order of the bytes of the patch file. */
  lemma {:induction false} BeforeIsFileOrder(content: string, i: nat, j: nat)
    requires i <= |content| && j <= |content|
    ensures Before(PosAt(content, i), PosAt(content, j)) <==> i < j
    ensures SamePlace(PosAt(content, i), PosAt(content, j)) <==> i == j
  {
    if i < j {
      LaterIsBehind(content, i, j);
    } else if j < i {
      LaterIsBehind(content, j, i);
    }
  }

  ghost predicate DistinctPlaces(dots: seq<Pos>) {
    forall i, j | 0 <= i < j < |dots| :: !SamePlace(dots[i], dots[j])
  }

  /** l is the last `...` of the minus side that does not stand behind r. */
  ghost predicate LastUpTo(lhs: seq<Pos>, r: Pos, l: Pos) {
    l in lhs && !Before(r, l) && forall l' | l' in lhs && !Before(r, l') :: !Before(l, l')
  }

  /** Every `...` of the minus side stands behind r. */
  ghost predicate Precedes(r: Pos, lhs: seq<Pos>) {
    forall l | l in lhs :: Before(r, l)
  }

  /** The association is complete: exactly the plus side's `...`s, each with the last one up to it. */
  ghost predicate Associates(lhs: seq<Pos>, rhs: seq<Pos>, conns: map<Pos, Pos>) {
    conns.Keys == (set r | r in rhs) && forall r | r in rhs :: LastUpTo(lhs, r, conns[r])
  }

  /** Some `...` of the plus side stands before the whole minus side. */
  ghost predicate SomePrecedes(rhs: seq<Pos>, lhs: seq<Pos>) {
    exists r | r in rhs :: Precedes(r, lhs)
  }

  ghost predicate NoRepeats(dots: seq<Pos>) {
    forall i, j | 0 <= i < j < |dots| :: dots[i] != dots[j]
  }

  /** The association keeps the order. */
  lemma {:induction false} AssociationIsMonotone(lhs: seq<Pos>, r1: Pos, r2: Pos, l1: Pos, l2: Pos)
    requires LastUpTo(lhs, r1, l1) && LastUpTo(lhs, r2, l2) && !Before(r2, r1)
    ensures !Before(l2, l1)
  {
    assert !Before(r2, l1);
  }

  /** The connections keep the order of the two sides. */
  ghost predicate Monotone(conns: map<Pos, Pos>) {
    forall r1, r2 | r1 in conns && r2 in conns && !Before(r2, r1) :: !Before(conns[r2], conns[r1])
  }

  lemma {:induction false} ConnectionsAreMonotone(lhs: seq<Pos>, conns: map<Pos, Pos>)
    requires forall r | r in conns :: LastUpTo(lhs, r, conns[r])
    ensures Monotone(conns)
  {
    hide LastUpTo, Before;
    forall r1, r2 | r1 in conns && r2 in conns && !Before(r2, r1) ensures !Before(conns[r2], conns[r1]) {
      AssociationIsMonotone(lhs, r1, r2, conns[r1], conns[r2]);
    }
  }

  datatype Verdict = Connected | NoPartner(r: Pos) | Conflict(r: Pos)

  lemma {:induction false} NothingRepeats()
    ensures NoRepeats([])
  {
  }

  lemma {:induction false} ItPrecedes(rhs: seq<Pos>, lhs: seq<Pos>, r: Pos)
    requires r in rhs && Precedes(r, lhs)
    ensures SomePrecedes(rhs, lhs)
  {
  }

  lemma {:induction false} Repeated(dots: seq<Pos>, k: nat)
    requires k < |dots| && dots[k] in dots[..k]
    ensures !NoRepeats(dots)
  {
    var j :| 0 <= j < k && dots[..k][j] == dots[k];
  }

  lemma {:induction false} NotRepeated(dots: seq<Pos>, k: nat)
    requires k < |dots| && dots[k] !in dots[..k] && NoRepeats(dots[..k])
    ensures NoRepeats(dots[..k + 1])
  {
    var more := dots[..k + 1];
    forall i, j | 0 <= i < j < |more| ensures more[i] != more[j] {
      assert dots[..k][i] == more[i] && more[i] in dots[..k];
      assert j < k ==> dots[..k][j] == more[j];
    }
  }

  lemma {:induction false} NotBehind(lhs: seq<Pos>, r: Pos, l: Pos)
    requires LastUpTo(lhs, r, l)
    ensures !Precedes(r, lhs)
  {
  }

  lemma {:induction false} NoneBehind(lhs: seq<Pos>, rhs: seq<Pos>, conns: map<Pos, Pos>)
    requires forall r | r in rhs :: r in conns && LastUpTo(lhs, r, conns[r])
    ensures !SomePrecedes(rhs, lhs)
  {
    forall r | r in rhs ensures !Precedes(r, lhs) { NotBehind(lhs, r, conns[r]); }
  }

  method Descending(dots: seq<Pos>) returns (r: seq<Pos>)
    ensures multiset(r) == multiset(dots) && Sorting.SortedBy(r, (p, q) => Before(q, p))
  {
    r := Sorting.Sort(dots, (p, q) => Before(q, p));
  }

  method Ascending(dots: seq<Pos>) returns (r: seq<Pos>)
    ensures Sorting.SortedBy(r, Before) && (forall p :: p in r <==> p in dots)
    ensures NoRepeats(r) <==> NoRepeats(dots)
  {
    r := Sorting.Sort(dots, Before);
    Sorting.SortKeepsMembers(dots, r);
    if NoRepeats(dots) { Sorting.SortKeepsDistinct(dots, r); }
    if NoRepeats(r) { Sorting.SortKeepsDistinct(r, dots); }
  }

  lemma {:induction false} FoundLast(lhs: seq<Pos>, descending: seq<Pos>, r: Pos, i: nat)
    requires multiset(descending) == multiset(lhs)
    requires Sorting.SortedBy(descending, (p, q) => Before(q, p)) && i <= |descending|
    requires i > 0 ==> Before(r, descending[i - 1])
    requires i < |descending| ==> !Before(r, descending[i])
    ensures i == |descending| ==> Precedes(r, lhs)
    ensures i < |descending| ==> LastUpTo(lhs, r, descending[i])
  {
    Sorting.SortKeepsMembers(lhs, descending);
    var less := (p, q) => Before(q, p);
    forall j | 0 <= j < i ensures Before(r, descending[j]) {
      if j < i - 1 {
        assert !less(descending[i - 1], descending[j]);
      }
    }
    forall j | i < j < |descending| ensures !Before(descending[i], descending[j]) {
      assert !less(descending[j], descending[i]);
    }
  }

  method SearchLast(ghost lhs: seq<Pos>, descending: seq<Pos>, r: Pos) returns (i: nat)
    requires multiset(descending) == multiset(lhs) && Sorting.SortedBy(descending, (p, q) => Before(q, p))
    ensures i <= |descending|
    ensures i == |descending| ==> Precedes(r, lhs)
    ensures i < |descending| ==> LastUpTo(lhs, r, descending[i])
  {
    i := Sorting.Search(|descending|, (i: int) requires 0 <= i < |descending| => !Before(r, descending[i]));
    FoundLast(lhs, descending, r, i);
  }

  /** If an earlier `...` of the plus side has found its partner, this one has one too. */
  lemma {:induction false} NotBehindAll(lhs: seq<Pos>, ascending: seq<Pos>, k: nat, conns: map<Pos, Pos>)
    requires Sorting.SortedBy(ascending, Before) && 0 < k < |ascending|
    requires ascending[0] in conns && LastUpTo(lhs, ascending[0], conns[ascending[0]])
    ensures !Precedes(ascending[k], lhs)
  {
    assert !Before(ascending[k], ascending[0]);
  }

  /** If the first `...` of the plus side has found its partner, all have one. */
  lemma {:induction false} NonePrecedes(lhs: seq<Pos>, rhs: seq<Pos>, ascending: seq<Pos>, l: Pos)
    requires Sorting.SortedBy(ascending, Before) && ascending != [] && forall p :: p in ascending <==> p in rhs
    requires LastUpTo(lhs, ascending[0], l)
    ensures !SomePrecedes(rhs, lhs)
  {
    forall r | r in rhs ensures !Precedes(r, lhs) {
      var m :| 0 <= m < |ascending| && ascending[m] == r;
      assert m > 0 ==> !Before(ascending[m], ascending[0]);
    }
  }

  /**
   * Associates every `...` of the plus side, or reports the first one that cannot be: nothing is associated exactly when
   * one of them precedes the whole minus side, and otherwise only a repeated `...` stops it.
   */
  method ConnectDots(lhs: seq<Pos>, rhs: seq<Pos>) returns (conns: map<Pos, Pos>, v: Verdict)
    ensures v.Connected? <==> !SomePrecedes(rhs, lhs) && NoRepeats(rhs)
    ensures v.NoPartner? <==> SomePrecedes(rhs, lhs)
    ensures v.Connected? ==> Associates(lhs, rhs, conns) && Monotone(conns)
    ensures v.NoPartner? ==> conns == map[] && v.r in rhs && Precedes(v.r, lhs)
    ensures v.Conflict? ==> v.r in conns
    ensures forall r | r in conns :: r in rhs && LastUpTo(lhs, r, conns[r])
  {
    hide LastUpTo, Precedes, Sorting.SortedBy, Before, Sorting.WeakOrder, NoRepeats, SomePrecedes, Monotone;
    NothingRepeats();
    var descending := Descending(lhs);
    var ascending := Ascending(rhs);
    conns := map[];
    for k := 0 to |ascending|
      invariant conns.Keys == set r | r in ascending[..k]
      invariant forall r | r in conns :: r in rhs && LastUpTo(lhs, r, conns[r])
      invariant NoRepeats(ascending[..k])
    {
      var r := ascending[k];
      assert r in rhs;
      var i := SearchLast(lhs, descending, r);
      if i == |descending| {
        if k > 0 {
          assert ascending[0] in ascending[..k];
          NotBehindAll(lhs, ascending, k, conns);
        }
        assert conns == map[];
        ItPrecedes(rhs, lhs, r);
        return conns, NoPartner(r);
      }
      if r in conns {
        assert ascending[0] in ascending[..k];
        NonePrecedes(lhs, rhs, ascending, conns[ascending[0]]);
        Repeated(ascending, k);
        return conns, Conflict(r);
      }
      NotRepeated(ascending, k);
      conns := conns[r := descending[i]];
      assert ascending[..k + 1] == ascending[..k] + [r];
    }
    v := Connected;
    assert ascending[..|ascending|] == ascending;
    NoneBehind(lhs, rhs, conns);
    ConnectionsAreMonotone(lhs, conns);
  }

  lemma {:induction false} PlacesAreDistinct(dots: seq<Pos>)
    requires DistinctPlaces(dots)
    ensures NoRepeats(dots)
  {
    forall i, j | 0 <= i < j < |dots| ensures dots[i] != dots[j] { assert !SamePlace(dots[i], dots[j]); }
  }

  /** With distinct places the associated `...` is the only one of its kind. */
  lemma {:induction false} AssociationIsUnique(lhs: seq<Pos>, r: Pos, i: nat, j: nat)
    requires DistinctPlaces(lhs) && i < |lhs| && j < |lhs|
    requires LastUpTo(lhs, r, lhs[i]) && LastUpTo(lhs, r, lhs[j])
    ensures i == j
  {
    assert SamePlace(lhs[i], lhs[j]);
    assert SamePlace(lhs[j], lhs[i]);
  }

  /** When the two sides have their `...`s in the same places, each one continues its counterpart. */
  lemma {:induction false} SamePlacesAreConnected(lhs: seq<Pos>, rhs: seq<Pos>, conns: map<Pos, Pos>, i: nat)
    requires |lhs| == |rhs| && (forall k | 0 <= k < |lhs| :: SamePlace(lhs[k], rhs[k])) && DistinctPlaces(lhs)
    requires Associates(lhs, rhs, conns) && i < |rhs|
    ensures rhs[i] in conns && conns[rhs[i]] == lhs[i]
  {
    var l := conns[rhs[i]];
    var j :| 0 <= j < |lhs| && lhs[j] == l;
    assert LastUpTo(lhs, rhs[i], l) && LastUpTo(lhs, rhs[i], lhs[i]);
    AssociationIsUnique(lhs, rhs[i], i, j);
  }

  /** In that case the association succeeds. */
  lemma {:induction false} SamePlacesSucceed(lhs: seq<Pos>, rhs: seq<Pos>)
    requires |lhs| == |rhs| && (forall k | 0 <= k < |lhs| :: SamePlace(lhs[k], rhs[k]))
    ensures !SomePrecedes(rhs, lhs)
  {
    forall r | r in rhs ensures !Precedes(r, lhs) {
      var k :| 0 <= k < |rhs| && rhs[k] == r;
      assert lhs[k] in lhs;
    }
  }
}
