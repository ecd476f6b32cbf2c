/** Model of internal/astdiff: snapshots of trees, the similarity score, and the search for changed sections. */
module AstDiff {
  import opened Wrappers
  import opened Tree
  import opened ListDiff
  import opened Alignments

  /** The `value` tree of snapshot.go without positions and comments of nodes. */
  datatype Snap =
    | NilS(t: Type)
    | PosS(pos: Pos)
    | PrimS(t: Type, lit: Lit)
    | RefS(t: Type, elem: Snap)  // a pointer or an interface
    | ListS(t: Type, children: seq<Snap>)  // a slice or a struct

  function SnapType(s: Snap): Type {
    if s.PosS? then PosT else s.t
  }

  /** Pointers that a snapshot does not follow. */
  predicate Dropped(t: Type) {
    t == OBJECT_PTR || t == COMMENT_GROUP_PTR || t == SCOPE_PTR
  }

  function Snapshot(v: Value): Snap
    decreases v
  {
    if Dropped(TypeOf(v)) then NilS(TypeOf(v))
    else match v
      case PosV(pos) => PosS(pos)
      case Prim(t, lit) => PrimS(t, lit)
      case Nil(t) => if t.SliceT? then ListS(t, []) else NilS(t)
      case Ptr(t, e) => RefS(t, Snapshot(e))
      case Iface(t, e) => RefS(t, Snapshot(e))
      case Slice(t, items) => ListS(t, SnapshotAll(items))
      case Struct(t, fields) => ListS(t, SnapshotAll(fields))
  }

  function SnapshotAll(vs: seq<Value>): (r: seq<Snap>)
    ensures |r| == |vs|
    decreases vs
  {
    seq(|vs|, i requires 0 <= i < |vs| => Snapshot(vs[i]))
  }

  /** The shape of a snapshot fits its type. */
  ghost predicate Shaped(s: Snap) {
    match s
    case NilS(t) => t.PtrT? || t.IfaceT?
    case PosS(_) => true
    case PrimS(t, _) => t.BasicT?
    case RefS(t, e) => (t.PtrT? || t.IfaceT?) && !Dropped(t) && Shaped(e)
    case ListS(t, children) =>
      && (t.SliceT? || (t.StructT? && |children| == |t.layout|))
      && forall i | 0 <= i < |children| :: Shaped(children[i])
  }

  ghost predicate ShapedAll(ss: seq<Snap>) {
    forall i | 0 <= i < |ss| :: Shaped(ss[i])
  }

  /** Structural equality, positions by validity. */
  ghost predicate SnapEq(a: Snap, b: Snap)
    decreases a
  {
    && SnapType(a) == SnapType(b)
    && match a
       case NilS(_) => b.NilS?
       case PosS(p) => b.PosS? && (p.IsValid() <==> b.pos.IsValid())
       case PrimS(_, lit) => b.PrimS? && lit == b.lit
       case RefS(_, e) => b.RefS? && SnapEq(e, b.elem)
       case ListS(_, children) => b.ListS? && SnapEqAll(children, b.children)
  }

  ghost predicate SnapEqAll(xs: seq<Snap>, ys: seq<Snap>)
    decreases xs
  {
    |xs| == |ys| && forall i | 0 <= i < |xs| :: SnapEq(xs[i], ys[i])
  }

  // ---------------------------------------------------------------- snapshots of trees

  lemma {:induction false} SnapshotIsShaped(v: Value)
    requires WellTyped(v)
    ensures Shaped(Snapshot(v)) && SnapType(Snapshot(v)) == TypeOf(v)
    decreases v
  {
    match v
    case Ptr(_, e) => SnapshotIsShaped(e);
    case Iface(_, e) => SnapshotIsShaped(e);
    case Slice(_, items) => forall i | 0 <= i < |items| ensures Shaped(Snapshot(items[i])) { SnapshotIsShaped(items[i]); }
    case Struct(_, fields) => forall i | 0 <= i < |fields| ensures Shaped(Snapshot(fields[i])) { SnapshotIsShaped(fields[i]); }
    case _ =>
  }

  /** Trees that the engine takes for equal have equal snapshots. */
  lemma {:induction false} EqualTreesEqualSnapshots(v: Value, w: Value)
    requires WellTyped(v) && WellTyped(w) && TypeOf(v) == TypeOf(w) && Eq(v, w)
    ensures SnapEq(Snapshot(v), Snapshot(w))
    decreases v
  {
    if !Dropped(TypeOf(v)) {
      match v
      case Ptr(_, e) => EqualTreesEqualSnapshots(e, w.elem);
      case Iface(_, e) => EqualTreesEqualSnapshots(e, w.elem);
      case Slice(_, items) =>
        forall i | 0 <= i < |items| ensures SnapEq(Snapshot(items[i]), Snapshot(Items(w)[i])) {
          EqualTreesEqualSnapshots(items[i], Items(w)[i]);
        }
      case Struct(_, fields) =>
        forall i | 0 <= i < |fields| ensures SnapEq(Snapshot(fields[i]), Snapshot(w.fields[i])) {
          EqualTreesEqualSnapshots(fields[i], w.fields[i]);
        }
      case _ =>
    }
  }

  /** No pointer to a scope, which a snapshot drops although the engine follows it. */
  ghost predicate ScopeFree(v: Value) {
    TypeOf(v) != SCOPE_PTR &&
    match v
    case Ptr(_, e) => ScopeFree(e)
    case Iface(_, e) => ScopeFree(e)
    case Slice(_, items) => forall i | 0 <= i < |items| :: ScopeFree(items[i])
    case Struct(_, fields) => forall i | 0 <= i < |fields| :: ScopeFree(fields[i])
    case _ => true
  }

  /** Apart from scopes, snapshots tell apart what the engine tells apart. */
  lemma {:induction false} EqualSnapshotsEqualTrees(v: Value, w: Value)
    requires WellTyped(v) && WellTyped(w) && TypeOf(v) == TypeOf(w) && ScopeFree(v)
    requires SnapEq(Snapshot(v), Snapshot(w))
    ensures Eq(v, w)
    decreases v
  {
    if !Dropped(TypeOf(v)) {
      match v
      case Ptr(_, e) => EqualSnapshotsEqualTrees(e, w.elem);
      case Iface(_, e) =>
        assert SnapType(Snapshot(e)) == SnapType(Snapshot(w.elem));
        EqualSnapshotsEqualTrees(e, w.elem);
      case Slice(_, items) =>
        assert |items| == |Items(w)|;
        forall i | 0 <= i < |items| ensures Eq(items[i], Items(w)[i]) {
          assert SnapshotAll(items)[i] == Snapshot(items[i]) && SnapshotAll(Items(w))[i] == Snapshot(Items(w)[i]);
          EqualSnapshotsEqualTrees(items[i], Items(w)[i]);
        }
      case Struct(_, fields) =>
        forall i | 0 <= i < |fields| ensures Eq(fields[i], w.fields[i]) {
          assert SnapshotAll(fields)[i] == Snapshot(fields[i]) && SnapshotAll(w.fields)[i] == Snapshot(w.fields[i]);
          EqualSnapshotsEqualTrees(fields[i], w.fields[i]);
        }
      case _ =>
    }
  }

  // --------------------------------------------------------------------- score

  function Plus(r: Result, s: Result): Result {
    Result(r.numSame + s.numSame, r.numDiff + s.numDiff)
  }

  function Total(rs: seq<Result>): Result {
    if rs == [] then Result(0, 0) else Plus(Total(rs[..|rs| - 1]), rs[|rs| - 1])
  }

  /** The number of items that have a partner. */
  function Partners(at: Alignment): (n: nat)
    ensures n <= |at|
  {
    if at == [] then 0 else Partners(at[..|at| - 1]) + if at[|at| - 1].Some? then 1 else 0
  }

  /** What two lists begin and end with is paired, an item with itself. */
  ghost predicate PairsCommonEnds(xs: seq<Snap>, ys: seq<Snap>, at: Alignment) {
    && (forall k: nat | k <= |xs| && k <= |ys| && SnapEqAll(xs[..k], ys[..k]) :: StartsAligned(at, k))
    && forall q: nat, k: nat | q + k <= |xs| && q + k <= |ys| && q < |xs| && q < |ys| && !SnapEq(xs[q], ys[q])
         && SnapEqAll(xs[|xs| - k..], ys[|ys| - k..]) :: EndsAligned(at, |ys|, k)
  }

  /** The items of ys that have no partner are differences too. */
  function Sum(at: Alignment, rs: seq<Result>, ny: nat): Result {
    Result(Total(rs).numSame, Total(rs).numDiff + if Partners(at) <= ny then ny - Partners(at) else 0)
  }

  /** Only similar items are partners, in order, and what the lists begin and end with is. */
  ghost predicate Fair(xs: seq<Snap>, ys: seq<Snap>, at: Alignment, rs: seq<Result>) {
    && |rs| == |at| && Ordered(at, |ys|) && PairsCommonEnds(xs, ys, at)
    && forall i | 0 <= i < |at| && at[i].Some? :: rs[i].Similar()
  }

  /**
   * The numbers of equal and of unequal parts of two trees, said without the list diff: trees of two types have nothing in
   * common; the items of two lists are paired in order, and one without a partner is a difference.
   */
  ghost predicate Scored(a: Snap, b: Snap, r: Result)
    decreases a
  {
    if SnapType(a) != SnapType(b) then r == Result(0, 2)
    else if SnapType(a) == OBJECT_PTR then r == Result(0, 0)
    else match a
      case NilS(_) => r == if b.NilS? then Result(1, 0) else Result(0, 1)
      case PosS(p) => b.PosS? && r == if p.IsValid() == b.pos.IsValid() then Result(1, 0) else Result(0, 1)
      case PrimS(_, lit) => b.PrimS? && r == if lit == b.lit then Result(1, 0) else Result(0, 1)
      case RefS(_, e) => if b.NilS? then r == Result(0, 1) else b.RefS? && Scored(e, b.elem, r)
      case ListS(t, xs) =>
        && b.ListS?
        && exists at, rs :: Scores(xs, b.children, at, rs) && Sum(at, rs, |b.children|) == r
             && if t.SliceT? then Fair(xs, b.children, at, rs) else |xs| == |b.children| && StartsAligned(at, |xs|)
  }

  /** The scores of the items of xs: of an item and its partner, or of an item without one. */
  ghost predicate Scores(xs: seq<Snap>, ys: seq<Snap>, at: Alignment, rs: seq<Result>)
    decreases xs
  {
    && |at| == |xs| == |rs|
    && forall i | 0 <= i < |xs| ::
         if at[i].None? then rs[i] == Result(0, 1) else at[i].value < |ys| && Scored(xs[i], ys[at[i].value], rs[i])
  }

  type Table = seq<seq<Result>>

  predicate IsTable(table: Table, nx: nat, ny: nat) {
    |table| == nx && forall i | 0 <= i < nx :: |table[i]| == ny
  }

  /** The table holds the score of each pair of items, which tells whether they are equal. */
  ghost predicate Tabulates(table: Table, xs: seq<Snap>, ys: seq<Snap>) {
    && IsTable(table, |xs|, |ys|)
    && forall i, j | 0 <= i < |xs| && 0 <= j < |ys| ::
         (table[i][j].Equal() <==> SnapEq(xs[i], ys[j])) && Scored(xs[i], ys[j], table[i][j])
  }

  function Lookup(table: Table, nx: nat, ny: nat): EqualFunc
    requires IsTable(table, nx, ny)
  {
    (i: int, j: int) requires 0 <= i < nx && 0 <= j < ny => table[i][j]
  }

  function InOrder(n: nat): Alignment {
    seq(n, i => Some(i))
  }

  lemma {:induction false} EveryPartner(n: nat)
    ensures StartsAligned(InOrder(n), n) && Partners(InOrder(n)) == n
  {
    if n > 0 {
      EveryPartner(n - 1);
      assert InOrder(n)[..n - 1] == InOrder(n - 1);
    }
  }

  /** One more item with a partner, with no partner, or one more item of the other list. */
  lemma {:induction false} TakeStep(es: EditScript, k: nat)
    requires k < |es|
    ensures var (at, at') := (AlignmentOf(es[..k]), AlignmentOf(es[..k + 1]));
      && |at| == Cell(es, k).0
      && at' == match es[k] {
         case Identity => at + [Some(Cell(es, k).1)]
         case Modified => at + [Some(Cell(es, k).1)]
         case UniqueX => at + [None]
         case UniqueY => at
         }
      && Partners(at') == Partners(at) + if es[k].Identity? || es[k].Modified? then 1 else 0
  {
    assert es[..k + 1][..k] == es[..k];
    var at, at' := AlignmentOf(es[..k]), AlignmentOf(es[..k + 1]);
    assert |at'| > |at| ==> at'[..|at|] == at;
  }

  lemma {:induction false} CellIsInside(es: EditScript, k: nat)
    requires k <= |es|
    ensures Cell(es, k).0 <= LenX(es) && Cell(es, k).1 <= LenY(es)
    decreases |es| - k
  {
    if k < |es| {
      Next(es, k);
      CellIsInside(es, k + 1);
    } else {
      assert es[..k] == es;
    }
  }

  lemma {:induction false} TotalOfMore(rs: seq<Result>, r: Result)
    ensures Total(rs + [r]) == Plus(Total(rs), r)
  {
    assert (rs + [r])[..|rs|] == rs;
  }

  lemma {:induction false} TableTellsEqual(table: Table, from: seq<Snap>, to: seq<Snap>)
    requires Tabulates(table, from, to)
    ensures AllEqual(Lookup(table, |from|, |to|), |from|, |to|) <==> SnapEqAll(from, to)
  {
    hide SnapEq;
    var f := Lookup(table, |from|, |to|);
    if AllEqual(f, |from|, |to|) {
      forall i | 0 <= i < |from| ensures SnapEq(from[i], to[i]) { assert f(i, i).Equal() && table[i][i].Equal(); }
    }
    if SnapEqAll(from, to) {
      forall i | 0 <= i < |from| ensures f(i, i).Equal() { assert SnapEq(from[i], to[i]) && table[i][i].Equal(); }
    }
  }

  lemma {:induction false} FreeMeansEqual(table: Table, from: seq<Snap>, to: seq<Snap>, es: EditScript)
    requires Tabulates(table, from, to)
    requires Dist(es) == 0 <==> AllEqual(Lookup(table, |from|, |to|), |from|, |to|)
    ensures RanStraight([], es) <==> SnapEqAll(from, to)
  {
    CountIdentity(es);
    TableTellsEqual(table, from, to);
    hide *;
  }

  /** What the loop over a script has taken from the table: the score of each pair, and a difference for a lone item. */
  ghost predicate Taken(table: Table, at: Alignment, rs: seq<Result>, nx: nat, ny: nat)
    requires IsTable(table, nx, ny)
  {
    && |rs| == |at| <= nx
    && forall l | 0 <= l < |at| ::
         if at[l].None? then rs[l] == Result(0, 1)
         else at[l].value < ny && rs[l] == table[l][at[l].value] && rs[l].Similar()
  }

  /** What the items that are paired so far add up to, y items of the second list being passed. */
  ghost predicate AddedUp(table: Table, at: Alignment, y: int, rs: seq<Result>, r: Result, nx: nat, ny: nat)
    requires IsTable(table, nx, ny)
  {
    && Taken(table, at, rs, nx, ny)
    && Partners(at) <= y
    && r == Result(Total(rs).numSame, Total(rs).numDiff + y - Partners(at))
  }

  lemma {:induction false} TakenMore(table: Table, at: Alignment, rs: seq<Result>, o: Option<nat>, r: Result, nx: nat, ny: nat)
    requires IsTable(table, nx, ny) && Taken(table, at, rs, nx, ny) && |at| < nx
    requires if o.None? then r == Result(0, 1) else o.value < ny && r == table[|at|][o.value] && r.Similar()
    ensures Taken(table, at + [o], rs + [r], nx, ny)
  {
  }

  lemma {:induction false} AddOne(
      table: Table, at: Alignment, y: int, rs: seq<Result>, r: Result, o: Option<nat>, x: Result, nx: nat, ny: nat)
    requires IsTable(table, nx, ny) && AddedUp(table, at, y, rs, r, nx, ny)
    requires |at| < nx && Partners(at + [o]) == Partners(at) + if o.Some? then 1 else 0
    requires if o.None? then x == Result(0, 1) else o.value < ny && x == table[|at|][o.value] && x.Similar()
    ensures AddedUp(table, at + [o], if o.Some? then y + 1 else y, rs + [x], Plus(r, x), nx, ny)
  {
    hide Taken, Total, Partners;
    TotalOfMore(rs, x);
    TakenMore(table, at, rs, o, x, nx, ny);
  }

  lemma {:induction false} PassOne(table: Table, at: Alignment, y: int, rs: seq<Result>, r: Result, nx: nat, ny: nat)
    requires IsTable(table, nx, ny) && AddedUp(table, at, y, rs, r, nx, ny)
    ensures AddedUp(table, at, y + 1, rs, Plus(r, Result(0, 1)), nx, ny)
  {
  }

  /** What the first k steps of a script add up to. */
  ghost predicate Counted(table: Table, es: EditScript, k: nat, rs: seq<Result>, r: Result, nx: nat, ny: nat)
    requires IsTable(table, nx, ny) && k <= |es|
  {
    && AddedUp(table, AlignmentOf(es[..k]), Cell(es, k).1, rs, r, nx, ny)
    && (r.numDiff == 0 <==> StartsWithMatches(es, k))
  }

  lemma {:induction false} OneMoreMatch(es: EditScript, k: nat)
    requires k < |es|
    ensures StartsWithMatches(es, k + 1) <==> StartsWithMatches(es, k) && es[k].Identity?
  {
  }

  lemma {:induction false} ItsLengths(f: EqualFunc, asked: seq<(int, int)>, es: EditScript, nx: nat, ny: nat)
    requires ValidScript(f, asked, es, nx, ny)
    ensures LenX(es) == nx && LenY(es) == ny
  {
  }

  /** A step that pairs two items was asked about, and differs exactly if it is no match. */
  lemma {:induction false} PairIsTabulated(
      f: EqualFunc, asked: seq<(int, int)>, table: Table, es: EditScript, k: nat, nx: nat, ny: nat)
    requires IsTable(table, nx, ny) && k < |es|
    requires f == Lookup(table, nx, ny) && ValidScript(f, asked, es, nx, ny) && InGrid(asked, nx, ny)
    ensures es[k].Identity? || es[k].Modified? ==>
      var (i, j) := Cell(es, k);
      && 0 <= i < nx && 0 <= j < ny && table[i][j].Similar()
      && (table[i][j].numDiff == 0 <==> es[k].Identity?)
  {
    hide Count;
    var (i, j) := Cell(es, k);
    assert StepOk(f, asked, es[k], i, j);
    if es[k].Identity? || es[k].Modified? {
      assert (i, j) in asked;
    }
  }

  lemma {:induction false} NothingTotals()
    ensures Total([]) == Result(0, 0) && AlignmentOf([]) == [] && Partners([]) == 0
  {
  }

  lemma {:induction false} NothingCounted(table: Table, es: EditScript, nx: nat, ny: nat)
    requires IsTable(table, nx, ny)
    ensures Counted(table, es, 0, [], Result(0, 0), nx, ny)
  {
    NothingTotals();
    assert es[..0] == [];
  }

  /** The score that a step adds. */
  ghost predicate Adds(table: Table, t: EditType, cell: (int, int), r: Result) {
    if t.Identity? || t.Modified? then
      0 <= cell.0 < |table| && 0 <= cell.1 < |table[cell.0]| && r == table[cell.0][cell.1]
    else r == Result(0, 1)
  }

  /** The new state is that of one more step. */
  lemma {:induction false} CountedNext(
      table: Table, es: EditScript, k: nat, rs: seq<Result>, r: Result, rs': seq<Result>, r': Result, nx: nat, ny: nat)
    requires IsTable(table, nx, ny) && k < |es| && Counted(table, es, k, rs, r, nx, ny)
    requires AddedUp(table, AlignmentOf(es[..k + 1]), Cell(es, k).1 + DY(es[k]), rs', r', nx, ny)
    requires r'.numDiff == 0 <==> r.numDiff == 0 && es[k].Identity?
    ensures Counted(table, es, k + 1, rs', r', nx, ny)
  {
    hide AddedUp, AlignmentOf, Cell;
    Next(es, k);
    OneMoreMatch(es, k);
  }

  lemma {:induction false} CountLone(
      table: Table, es: EditScript, k: nat, rs: seq<Result>, r: Result, nx: nat, ny: nat)
    requires IsTable(table, nx, ny) && k < |es| && Counted(table, es, k, rs, r, nx, ny) && es[k].UniqueX? && LenX(es) == nx
    ensures Counted(table, es, k + 1, rs + [Result(0, 1)], Plus(r, Result(0, 1)), nx, ny)
  {
    hide AlignmentOf, Partners, AddedUp, StartsWithMatches, Cell, LenX;
    TakeStep(es, k);
    CellIsInside(es, k + 1);
    Next(es, k);
    AddOne(table, AlignmentOf(es[..k]), Cell(es, k).1, rs, r, None, Result(0, 1), nx, ny);
    CountedNext(table, es, k, rs, r, rs + [Result(0, 1)], Plus(r, Result(0, 1)), nx, ny);
  }

  lemma {:induction false} CountPassed(
      table: Table, es: EditScript, k: nat, rs: seq<Result>, r: Result, nx: nat, ny: nat)
    requires IsTable(table, nx, ny) && k < |es| && Counted(table, es, k, rs, r, nx, ny) && es[k].UniqueY?
    ensures Counted(table, es, k + 1, rs, Plus(r, Result(0, 1)), nx, ny)
  {
    hide AlignmentOf, Partners, AddedUp, StartsWithMatches, Cell;
    TakeStep(es, k);
    PassOne(table, AlignmentOf(es[..k]), Cell(es, k).1, rs, r, nx, ny);
    CountedNext(table, es, k, rs, r, rs, Plus(r, Result(0, 1)), nx, ny);
  }

  lemma {:induction false} CountPair(
      table: Table, es: EditScript, k: nat, rs: seq<Result>, r: Result, x: Result, nx: nat, ny: nat)
    requires IsTable(table, nx, ny) && k < |es| && Counted(table, es, k, rs, r, nx, ny) && (es[k].Identity? || es[k].Modified?)
    requires var (i, j) := Cell(es, k);
      0 <= i < nx && 0 <= j < ny && x == table[i][j] && x.Similar() && (x.numDiff == 0 <==> es[k].Identity?)
    ensures Counted(table, es, k + 1, rs + [x], Plus(r, x), nx, ny)
  {
    hide AlignmentOf, Partners, AddedUp, StartsWithMatches, Cell;
    TakeStep(es, k);
    AddOne(table, AlignmentOf(es[..k]), Cell(es, k).1, rs, r, Some(Cell(es, k).1), x, nx, ny);
    CountedNext(table, es, k, rs, r, rs + [x], Plus(r, x), nx, ny);
  }

  lemma {:induction false} OneMoreCounted(
      f: EqualFunc, asked: seq<(int, int)>, table: Table, es: EditScript, k: nat, rs: seq<Result>, r: Result, x: Result,
      nx: nat, ny: nat)
    returns (rs': seq<Result>)
    requires IsTable(table, nx, ny) && k < |es|
    requires f == Lookup(table, nx, ny) && ValidScript(f, asked, es, nx, ny) && InGrid(asked, nx, ny)
    requires Counted(table, es, k, rs, r, nx, ny) && Adds(table, es[k], Cell(es, k), x)
    ensures Counted(table, es, k + 1, rs', Plus(r, x), nx, ny)
  {
    PairIsTabulated(f, asked, table, es, k, nx, ny);
    ItsLengths(f, asked, es, nx, ny);
    hide ValidScript, InGrid, Cell, LenX, LenY, Counted;
    match es[k]
    case UniqueX => CountLone(table, es, k, rs, r, nx, ny); rs' := rs + [x];
    case UniqueY => CountPassed(table, es, k, rs, r, nx, ny); rs' := rs;
    case _ => CountPair(table, es, k, rs, r, x, nx, ny); rs' := rs + [x];
  }

  lemma {:induction false} AllCounted(table: Table, es: EditScript, rs: seq<Result>, r: Result, nx: nat, ny: nat)
    requires IsTable(table, nx, ny) && LenY(es) == ny
    requires Counted(table, es, |es|, rs, r, nx, ny)
    ensures Taken(table, AlignmentOf(es), rs, nx, ny) && r == Sum(AlignmentOf(es), rs, ny)
    ensures r.numDiff == 0 <==> RanStraight([], es)
  {
    WholeCell(es);
    assert es[..|es|] == es;
  }

  lemma {:induction false} TakenScores(table: Table, xs: seq<Snap>, ys: seq<Snap>, at: Alignment, rs: seq<Result>)
    requires Tabulates(table, xs, ys) && Taken(table, at, rs, |xs|, |ys|) && |at| == |xs|
    ensures Scores(xs, ys, at, rs) && forall i | 0 <= i < |at| && at[i].Some? :: rs[i].Similar()
  {
    hide Scored, SnapEq;
  }

  lemma {:induction false} EqualStart(table: Table, xs: seq<Snap>, ys: seq<Snap>, k: nat)
    requires Tabulates(table, xs, ys) && k <= |xs| && k <= |ys| && SnapEqAll(xs[..k], ys[..k])
    ensures StartAlike(Lookup(table, |xs|, |ys|), |xs|, |ys|, k)
  {
    hide Scored, SnapEq;
    forall i | 0 <= i < k ensures MatchAt(Lookup(table, |xs|, |ys|), Point(0, 0), 1, i) {
      assert SnapEq(xs[..k][i], ys[..k][i]);
      assert table[i][i].Equal();
    }
  }

  lemma {:induction false} EqualEnd(table: Table, xs: seq<Snap>, ys: seq<Snap>, q: nat, k: nat)
    requires Tabulates(table, xs, ys) && q + k <= |xs| && q + k <= |ys| && q < |xs| && q < |ys|
    requires !SnapEq(xs[q], ys[q]) && SnapEqAll(xs[|xs| - k..], ys[|ys| - k..])
    ensures EndAlike(Lookup(table, |xs|, |ys|), |xs|, |ys|, q, k)
  {
    hide Scored, SnapEq;
    var f := Lookup(table, |xs|, |ys|);
    forall i | 0 <= i < k ensures MatchAt(f, Point(|xs|, |ys|), -1, i) {
      assert SnapEq(xs[|xs| - k..][k - 1 - i], ys[|ys| - k..][k - 1 - i]);
      assert table[|xs| - 1 - i][|ys| - 1 - i].Equal();
    }
    assert !table[q][q].Equal();
  }

  /** The script of the list diff pairs the items as it should. */
  lemma {:induction false} ScriptPairs(table: Table, xs: seq<Snap>, ys: seq<Snap>, es: EditScript)
    requires Tabulates(table, xs, ys) && LenX(es) == |xs| && LenY(es) == |ys|
    requires KeepsEnds(Lookup(table, |xs|, |ys|), es, |xs|, |ys|)
    ensures Ordered(AlignmentOf(es), |ys|) && PairsCommonEnds(xs, ys, AlignmentOf(es))
  {
    var f, at := Lookup(table, |xs|, |ys|), AlignmentOf(es);
    hide Scored, SnapEq, SnapEqAll, Tabulates, StartAlike, EndAlike, StartsAligned, EndsAligned, AlignmentOf, StartsWithMatches;
    hide EndsWithMatches;
    AlignmentIsOrdered(es);
    forall k: nat | k <= |xs| && k <= |ys| && SnapEqAll(xs[..k], ys[..k]) ensures StartsAligned(at, k) {
      EqualStart(table, xs, ys, k);
      MatchesAtStart(es, k);
    }
    forall q: nat, k: nat | q + k <= |xs| && q + k <= |ys| && q < |xs| && q < |ys| && !SnapEq(xs[q], ys[q])
      && SnapEqAll(xs[|xs| - k..], ys[|ys| - k..]) ensures EndsAligned(at, |ys|, k)
    {
      EqualEnd(table, xs, ys, q, k);
      MatchesAtEnd(es, k);
    }
  }

  lemma {:induction false} ItIsFair(table: Table, xs: seq<Snap>, ys: seq<Snap>, at: Alignment, rs: seq<Result>)
    requires Tabulates(table, xs, ys) && Taken(table, at, rs, |xs|, |ys|)
    requires Ordered(at, |ys|) && PairsCommonEnds(xs, ys, at)
    ensures Fair(xs, ys, at, rs)
  {
    hide Scored, SnapEq, PairsCommonEnds;
  }

  lemma {:induction false} ScoredStruct(t: Type, xs: seq<Snap>, ys: seq<Snap>, rs: seq<Result>)
    requires !t.SliceT? && t != OBJECT_PTR && |xs| == |ys| == |rs| && forall i | 0 <= i < |xs| :: Scored(xs[i], ys[i], rs[i])
    ensures Scored(ListS(t, xs), ListS(t, ys), Total(rs))
  {
    hide Total;
    EveryPartner(|xs|);
    hide Partners;
    assert Scores(xs, ys, InOrder(|xs|), rs) && Sum(InOrder(|xs|), rs, |ys|) == Total(rs);
  }

  lemma {:induction false} ScoredSlice(t: Type, xs: seq<Snap>, ys: seq<Snap>, at: Alignment, rs: seq<Result>, r: Result)
    requires t.SliceT? && Scores(xs, ys, at, rs) && Fair(xs, ys, at, rs) && r == Sum(at, rs, |ys|)
    ensures Scored(ListS(t, xs), ListS(t, ys), r)
  {
  }

  /** nodeComparer: counts sub-elements that are equal and that are not. */
  class NodeComparer {
    var numSame: nat
    var numDiff: nat

    constructor ()
      ensures numSame == 0 && numDiff == 0
    {
      numSame, numDiff := 0, 0;
    }

    /** Counts the score of the trees; no difference is counted exactly when they are equal. */
    method Walk(from: Snap, to: Snap)
      requires Shaped(from) && Shaped(to)
      modifies this
      ensures numSame >= old(numSame) && numDiff >= old(numDiff)
      ensures numDiff == old(numDiff) <==> SnapEq(from, to)
      ensures Scored(from, to, Result(numSame - old(numSame), numDiff - old(numDiff)))
      decreases from, 1
    {
      if SnapType(from) != SnapType(to) {
        numDiff := numDiff + 2;
        return;
      }
      if SnapType(from) == OBJECT_PTR {
        return;
      }
      match from {
        case PosS(p) =>
          if p.IsValid() != to.pos.IsValid() {
            numDiff := numDiff + 1;
          } else {
            numSame := numSame + 1;
          }
        case NilS(_) =>
          if to.NilS? {
            numSame := numSame + 1;
          } else {
            numDiff := numDiff + 1;
          }
        case RefS(_, e) =>
          if to.NilS? {
            numDiff := numDiff + 1;
          } else {
            Walk(e, to.elem);
          }
        case ListS(t, children) =>
          if t.SliceT? {
            WalkSlice(t, children, to.children);
          } else {
            WalkStruct(t, children, to.children);
          }
        case PrimS(_, lit) =>
          if lit == to.lit {
            numSame := numSame + 1;
          } else {
            numDiff := numDiff + 1;
          }
      }
    }

    method WalkStruct(ghost t: Type, from: seq<Snap>, to: seq<Snap>)
      requires ShapedAll(from) && ShapedAll(to) && |from| == |to| && !t.SliceT? && t != OBJECT_PTR
      modifies this
      ensures numSame >= old(numSame) && numDiff >= old(numDiff)
      ensures numDiff == old(numDiff) <==> SnapEqAll(from, to)
      ensures Scored(ListS(t, from), ListS(t, to), Result(numSame - old(numSame), numDiff - old(numDiff)))
      decreases from, 1
    {
      hide SnapEq, Shaped, Scored, Total;
      ghost var rs: seq<Result> := [];
      assert Total(rs) == Result(0, 0) by { NothingTotals(); }
      for i := 0 to |from|
        invariant numDiff == old(numDiff) <==> forall k | 0 <= k < i :: SnapEq(from[k], to[k])
        invariant |rs| == i && forall k | 0 <= k < i :: Scored(from[k], to[k], rs[k])
        invariant numSame == old(numSame) + Total(rs).numSame && numDiff == old(numDiff) + Total(rs).numDiff
      {
        ghost var same, diff := numSame, numDiff;
        Walk(from[i], to[i]);
        TotalOfMore(rs, Result(numSame - same, numDiff - diff));
        rs := rs + [Result(numSame - same, numDiff - diff)];
      }
      ScoredStruct(t, from, to, rs);
    }

    method WalkSlice(ghost t: Type, from: seq<Snap>, to: seq<Snap>)
      requires ShapedAll(from) && ShapedAll(to) && t.SliceT?
      modifies this
      ensures numSame >= old(numSame) && numDiff >= old(numDiff)
      ensures numDiff == old(numDiff) <==> SnapEqAll(from, to)
      ensures Scored(ListS(t, from), ListS(t, to), Result(numSame - old(numSame), numDiff - old(numDiff)))
      decreases from, 1
    {
      hide SnapEq, Shaped, Scored, Scores, Fair, Sum, Taken, KeepsEnds, PairsCommonEnds;
      var results := CompareAll(from, to);
      var f := Lookup(results, |from|, |to|);
      ghost var asked;
      var es;
      es, asked := Difference(|from|, |to|, f);
      FreeMeansEqual(results, from, to, es);
      ghost var rs := AddUp(es, results, from, to, f, asked);
      TakenScores(results, from, to, AlignmentOf(es), rs);
      ScriptPairs(results, from, to, es);
      assert Fair(from, to, AlignmentOf(es), rs) by { ItIsFair(results, from, to, AlignmentOf(es), rs); }
      ScoredSlice(t, from, to, AlignmentOf(es), rs, Result(numSame - old(numSame), numDiff - old(numDiff)));
    }

    /** The loop over the script: each step counts what its comparison found, or one difference. */
    method AddUp(
        es: EditScript, results: Table, from: seq<Snap>, to: seq<Snap>, ghost f: EqualFunc, ghost asked: seq<(int, int)>)
      returns (ghost rs: seq<Result>)
      requires Tabulates(results, from, to) && f == Lookup(results, |from|, |to|)
      requires ValidScript(f, asked, es, |from|, |to|) && InGrid(asked, |from|, |to|)
      modifies this
      ensures numSame >= old(numSame) && numDiff >= old(numDiff)
      ensures numDiff == old(numDiff) <==> RanStraight([], es)
      ensures Taken(results, AlignmentOf(es), rs, |from|, |to|)
      ensures Result(numSame - old(numSame), numDiff - old(numDiff)) == Sum(AlignmentOf(es), rs, |to|)
    {
      hide SnapEq, Count, Scored, Counted, AlignmentOf, Taken, ValidScript, InGrid, Sum, RanStraight;
      ItsLengths(f, asked, es, |from|, |to|);
      var i, j := 0, 0;
      rs := [];
      NothingCounted(results, es, |from|, |to|);
      for k := 0 to |es|
        invariant (i, j) == Cell(es, k)
        invariant numSame >= old(numSame) && numDiff >= old(numDiff)
        invariant Counted(results, es, k, rs, Result(numSame - old(numSame), numDiff - old(numDiff)), |from|, |to|)
      {
        Next(es, k);
        PairIsTabulated(f, asked, results, es, k, |from|, |to|);
        ghost var r := Result(numSame - old(numSame), numDiff - old(numDiff));
        match es[k] {
          case Identity =>
            rs := OneMoreCounted(f, asked, results, es, k, rs, r, results[i][j], |from|, |to|);
            numDiff, numSame := numDiff + results[i][j].numDiff, numSame + results[i][j].numSame;
            i, j := i + 1, j + 1;
          case Modified =>
            rs := OneMoreCounted(f, asked, results, es, k, rs, r, results[i][j], |from|, |to|);
            numDiff, numSame := numDiff + results[i][j].numDiff, numSame + results[i][j].numSame;
            i, j := i + 1, j + 1;
          case UniqueX =>
            rs := OneMoreCounted(f, asked, results, es, k, rs, r, Result(0, 1), |from|, |to|);
            i := i + 1;
            numDiff := numDiff + 1;
          case UniqueY =>
            rs := OneMoreCounted(f, asked, results, es, k, rs, r, Result(0, 1), |from|, |to|);
            j := j + 1;
            numDiff := numDiff + 1;
        }
      }
      AllCounted(results, es, rs, Result(numSame - old(numSame), numDiff - old(numDiff)), |from|, |to|);
    }
  }

  /** compareNodes: the score of two trees, with zero differences if and only if they are equal. */
  method CompareNodes(from: Snap, to: Snap) returns (r: Result)
    requires Shaped(from) && Shaped(to)
    ensures r.numDiff == 0 <==> SnapEq(from, to)
    ensures Scored(from, to, r)
    decreases from, 2
  {
    var c := new NodeComparer();
    c.Walk(from, to);
    r := Result(c.numSame, c.numDiff);
  }

  /** The comparisons that `Difference` may ask for, made beforehand. */
  method CompareAll(from: seq<Snap>, to: seq<Snap>) returns (table: Table)
    requires ShapedAll(from) && ShapedAll(to)
    ensures Tabulates(table, from, to)
    decreases from, 0
  {
    hide SnapEq, Shaped, Scored;
    table := [];
    for i := 0 to |from|
      invariant Tabulates(table, from[..i], to)
    {
      var row: seq<Result> := [];
      for j := 0 to |to|
        invariant |row| == j
        invariant forall l | 0 <= l < j :: (row[l].Equal() <==> SnapEq(from[i], to[l])) && Scored(from[i], to[l], row[l])
      {
        var r := CompareNodes(from[i], to[j]);
        row := row + [r];
      }
      table := table + [row];
    }
    assert from[..|from|] == from;
  }

  // ------------------------------------------------------------------- changes

  predicate IsNodeType(t: Type) {
    (t.PtrT? && t.elem.StructT? && t.elem.isNode) || (t.IfaceT? && t.isNode)
  }

  /** No nil stands where the change finder looks: it does not look into lists of nodes that are equal. */
  ghost predicate NoNil(s: Snap) {
    match s
    case NilS(t) => t == OBJECT_PTR || t == COMMENT_GROUP_PTR
    case RefS(_, e) => NoNil(e)
    case ListS(t, children) => (t.SliceT? && IsNodeType(t.elem)) || forall i | 0 <= i < |children| :: NoNil(children[i])
    case _ => true
  }

  ghost predicate NoNilAll(ss: seq<Snap>) {
    forall i | 0 <= i < |ss| :: NoNil(ss[i])
  }

  /** A list whose items are nodes, which may come and go. */
  predicate IsNodeList(t: Type) {
    t.SliceT? && IsNodeType(t.elem)
  }

  function SumOf(ns: seq<nat>): nat {
    if ns == [] then 0 else SumOf(ns[..|ns| - 1]) + ns[|ns| - 1]
  }

  ghost predicate IsFair(xs: seq<Snap>, ys: seq<Snap>, at: Alignment) {
    exists rs :: Scores(xs, ys, at, rs) && Fair(xs, ys, at, rs)
  }

  /**
   * n is the number of changed sections of a tree that became b, said without the list diff: a part of another type or
   * literal, one that is gone, or another validity of a position; of a list of nodes also every item without a partner.
   */
  ghost predicate Reported(a: Snap, b: Snap, n: nat)
    decreases a
  {
    if SnapType(a) != SnapType(b) then n == 1
    else if SnapType(a) == OBJECT_PTR || SnapType(a) == COMMENT_GROUP_PTR then n == 0
    else match a
      case NilS(_) => n == 0
      case PosS(p) => b.PosS? && n == if p.IsValid() == b.pos.IsValid() then 0 else 1
      case PrimS(_, lit) => b.PrimS? && n == if lit == b.lit then 0 else 1
      case RefS(_, e) => if b.NilS? then n == 1 else b.RefS? && Reported(e, b.elem, n)
      case ListS(t, xs) =>
        && b.ListS?
        && if IsNodeList(t) then
             exists at, ns :: Reports(xs, b.children, at, ns) && SumOf(ns) == n && IsFair(xs, b.children, at)
           else if |xs| != |b.children| then n == 1
           else exists ns :: Reports(xs, b.children, InOrder(|xs|), ns) && SumOf(ns) == n
  }

  /** The changed sections of each item of xs: one if it has no partner. */
  ghost predicate Reports(xs: seq<Snap>, ys: seq<Snap>, at: Alignment, ns: seq<nat>)
    decreases xs
  {
    && |at| == |xs| == |ns|
    && forall i | 0 <= i < |xs| ::
         if at[i].None? then ns[i] == 1 else at[i].value < |ys| && Reported(xs[i], ys[at[i].value], ns[i])
  }

  /**
   * The old tree a is kept in the new tree b: nothing that was there is gone or altered. What was nil may have become
   * anything, and lists of nodes may have more items.
   */
  ghost predicate Kept(a: Snap, b: Snap)
    decreases a
  {
    && SnapType(a) == SnapType(b)
    && (SnapType(a) == OBJECT_PTR || SnapType(a) == COMMENT_GROUP_PTR ||
        match a
        case NilS(_) => true
        case PosS(p) => b.PosS? && (p.IsValid() <==> b.pos.IsValid())
        case PrimS(_, lit) => b.PrimS? && lit == b.lit
        case RefS(_, e) => b.RefS? && Kept(e, b.elem)
        case ListS(t, xs) =>
          && b.ListS?
          && if IsNodeList(t) then exists to: seq<nat> :: KeptAt(xs, b.children, to)
             else |xs| == |b.children| && forall i | 0 <= i < |xs| :: Kept(xs[i], b.children[i]))
  }

  /** Every item of xs is kept in ys, in order: the item at index i in the one at index to[i]. */
  ghost predicate KeptAt(xs: seq<Snap>, ys: seq<Snap>, to: seq<nat>)
    decreases xs
  {
    && |to| == |xs|
    && (forall i | 0 <= i < |xs| :: to[i] < |ys| && Kept(xs[i], ys[to[i]]))
    && forall i, j | 0 <= i < j < |to| :: to[i] < to[j]
  }

  lemma {:induction false} NoneReported(ns: seq<nat>)
    ensures SumOf(ns) == 0 <==> forall i | 0 <= i < |ns| :: ns[i] == 0
  {
    if ns != [] {
      NoneReported(ns[..|ns| - 1]);
      assert forall i | 0 <= i < |ns| :: ns[i] == if i < |ns| - 1 then ns[..|ns| - 1][i] else ns[|ns| - 1];
      assert forall i | 0 <= i < |ns| - 1 :: ns[..|ns| - 1][i] == ns[i];
    }
  }

  /** Silence means that nothing is lost. */
  lemma {:induction false} SilenceKeeps(a: Snap, b: Snap)
    requires Reported(a, b, 0)
    ensures Kept(a, b)
    decreases a
  {
    if SnapType(a) != OBJECT_PTR && SnapType(a) != COMMENT_GROUP_PTR {
      match a
      case RefS(_, e) => SilenceKeeps(e, b.elem);
      case ListS(t, xs) =>
        var ys := b.children;
        if IsNodeList(t) {
          var at: Alignment, ns :| Reports(xs, ys, at, ns) && SumOf(ns) == 0 && IsFair(xs, ys, at);
          SilentItemsKept(xs, ys, at, ns);
          var to := seq(|xs|, i requires 0 <= i < |xs| => at[i].value);
          assert KeptAt(xs, ys, to);
        } else {
          var ns :| Reports(xs, ys, InOrder(|xs|), ns) && SumOf(ns) == 0;
          SilentItemsKept(xs, ys, InOrder(|xs|), ns);
        }
      case _ =>
    }
  }

  lemma {:induction false} SilentItemsKept(xs: seq<Snap>, ys: seq<Snap>, at: Alignment, ns: seq<nat>)
    requires Reports(xs, ys, at, ns) && SumOf(ns) == 0
    ensures forall i | 0 <= i < |xs| :: at[i].Some? && at[i].value < |ys| && Kept(xs[i], ys[at[i].value])
    decreases xs
  {
    hide Kept, Reported;
    NoneReported(ns);
    forall i | 0 <= i < |xs| ensures at[i].Some? && at[i].value < |ys| && Kept(xs[i], ys[at[i].value]) {
      SilenceKeeps(xs[i], ys[at[i].value]);
    }
  }

  lemma {:induction false} EqualStructure(a: Snap, b: Snap)
    requires SnapEq(a, b)
    ensures a.ListS? ==> b.ListS? && a.t == b.t && SnapEqAll(a.children, b.children)
    ensures a.RefS? ==> b.RefS? && a.t == b.t && SnapEq(a.elem, b.elem)
  {
  }

  lemma {:induction false} PairedInOrder(xs: seq<Snap>, ys: seq<Snap>)
    requires |xs| == |ys|
    ensures Ordered(InOrder(|xs|), |ys|) && PairsCommonEnds(xs, ys, InOrder(|xs|))
  {
    hide SnapEq, SnapEqAll;
  }

  /** Equal trees have no unequal parts. */
  lemma {:induction false} EqualIsScored(a: Snap, b: Snap) returns (r: Result)
    requires SnapEq(a, b) && Shaped(a)
    ensures Scored(a, b, r) && r.numDiff == 0
    decreases a, 1
  {
    if SnapType(a) == OBJECT_PTR {
      r := Result(0, 0);
    } else {
      match a
      case RefS(_, e) => r := EqualIsScored(e, b.elem);
      case ListS(t, xs) =>
        var rs := EqualAreScored(xs, b.children);
        EqualStructure(a, b);
        assert t == b.t;
        if t.SliceT? {
          assert Fair(xs, b.children, InOrder(|xs|), rs) by { PairedInOrder(xs, b.children); }
          EveryPartner(|xs|);
          r := Sum(InOrder(|xs|), rs, |b.children|);
          ScoredSlice(t, xs, b.children, InOrder(|xs|), rs, r);
        } else {
          r := Total(rs);
          ScoredStruct(t, xs, b.children, rs);
        }
      case _ => r := Result(1, 0);
    }
  }

  lemma {:induction false} EqualAreScored(xs: seq<Snap>, ys: seq<Snap>) returns (rs: seq<Result>)
    requires SnapEqAll(xs, ys) && ShapedAll(xs)
    ensures Scores(xs, ys, InOrder(|xs|), rs) && Total(rs).numDiff == 0
    ensures forall i | 0 <= i < |xs| :: Scored(xs[i], ys[i], rs[i]) && rs[i].numDiff == 0
    decreases xs, 0
  {
    hide SnapEq, Scored, Shaped, Total;
    rs := [];
    NothingTotals();
    for k := 0 to |xs|
      invariant |rs| == k && Total(rs).numDiff == 0
      invariant forall i | 0 <= i < k :: Scored(xs[i], ys[i], rs[i]) && rs[i].numDiff == 0
    {
      var r := EqualIsScored(xs[k], ys[k]);
      TotalOfMore(rs, r);
      rs := rs + [r];
    }
  }

  /** Between equal trees nothing is reported. */
  lemma {:induction false} EqualIsSilent(a: Snap, b: Snap)
    requires SnapEq(a, b) && Shaped(a)
    ensures Reported(a, b, 0)
    decreases a, 1
  {
    match a
    case RefS(_, e) => EqualIsSilent(e, b.elem);
    case ListS(t, xs) =>
      EqualStructure(a, b);
      EqualAreSilent(xs, b.children);
      var ns := seq(|xs|, _ => 0);
      NoneReported(ns);
      assert Reports(xs, b.children, InOrder(|xs|), ns);
      if IsNodeList(t) {
        var rs := EqualAreScored(xs, b.children);
        assert Fair(xs, b.children, InOrder(|xs|), rs) by { PairedInOrder(xs, b.children); }
        assert IsFair(xs, b.children, InOrder(|xs|));
      }
    case _ =>
  }

  lemma {:induction false} EqualAreSilent(xs: seq<Snap>, ys: seq<Snap>)
    requires SnapEqAll(xs, ys) && ShapedAll(xs)
    ensures forall i | 0 <= i < |xs| :: Reported(xs[i], ys[i], 0)
    decreases xs, 0
  {
    hide SnapEq, Shaped, Reported;
    forall i | 0 <= i < |xs| ensures Reported(xs[i], ys[i], 0) { EqualIsSilent(xs[i], ys[i]); }
  }

  lemma {:induction false} SumOfMore(ns: seq<nat>, n: nat)
    ensures SumOf(ns + [n]) == SumOf(ns) + n
  {
    assert (ns + [n])[..|ns|] == ns;
  }

  lemma {:induction false} StructReported(t: Type, xs: seq<Snap>, ys: seq<Snap>, ns: seq<nat>)
    requires !t.PtrT? && !IsNodeList(t) && |xs| == |ys| == |ns| && forall i | 0 <= i < |xs| :: Reported(xs[i], ys[i], ns[i])
    ensures Reported(ListS(t, xs), ListS(t, ys), SumOf(ns))
  {
    assert Reports(xs, ys, InOrder(|xs|), ns);
  }

  /** What the first k steps of a script have reported. */
  ghost predicate ReportedSoFar(xs: seq<Snap>, ys: seq<Snap>, es: EditScript, k: nat, ns: seq<nat>, n: nat)
    requires k <= |es|
  {
    var at := AlignmentOf(es[..k]);
    SumOf(ns) == n && |at| <= |xs| && Reports(xs[..|at|], ys, at, ns)
  }

  lemma {:induction false} ReportsMore(xs: seq<Snap>, ys: seq<Snap>, at: Alignment, ns: seq<nat>, o: Option<nat>, x: nat)
    requires |at| < |xs| && Reports(xs[..|at|], ys, at, ns)
    requires if o.None? then x == 1 else o.value < |ys| && Reported(xs[|at|], ys[o.value], x)
    ensures Reports(xs[..|at| + 1], ys, at + [o], ns + [x]) && SumOf(ns + [x]) == SumOf(ns) + x
  {
    hide Reported, SumOf;
    SumOfMore(ns, x);
  }

  lemma {:induction false} NothingReported(xs: seq<Snap>, ys: seq<Snap>, es: EditScript)
    ensures ReportedSoFar(xs, ys, es, 0, [], 0)
  {
    NothingTotals();
    assert es[..0] == [];
  }

  lemma {:induction false} OneMoreReported(
      xs: seq<Snap>, ys: seq<Snap>, es: EditScript, k: nat, ns: seq<nat>, n: nat, x: nat) returns (ns': seq<nat>)
    requires k < |es| && ReportedSoFar(xs, ys, es, k, ns, n) && LenX(es) == |xs| && LenY(es) == |ys|
    requires var (i, j) := Cell(es, k);
      match es[k] {
      case UniqueX => x == 1
      case UniqueY => x == 0
      case _ => 0 <= i < |xs| && 0 <= j < |ys| && Reported(xs[i], ys[j], x)
      }
    ensures ReportedSoFar(xs, ys, es, k + 1, ns', n + x)
  {
    hide Reported, Reports, AlignmentOf, SumOf;
    Next(es, k);
    TakeStep(es, k);
    CellIsInside(es, k + 1);
    var at, j := AlignmentOf(es[..k]), Cell(es, k).1;
    hide Cell;
    match es[k]
    case UniqueX => ReportsMore(xs, ys, at, ns, None, x); ns' := ns + [x];
    case UniqueY => ns' := ns;
    case _ => ReportsMore(xs, ys, at, ns, Some(j), x); ns' := ns + [x];
  }

  /** The score of each item and its partner, as the script saw it. */
  lemma {:induction false} ScriptTakes(f: EqualFunc, asked: seq<(int, int)>, table: Table, es: EditScript, nx: nat, ny: nat)
    returns (rs: seq<Result>)
    requires IsTable(table, nx, ny) && f == Lookup(table, nx, ny)
    requires ValidScript(f, asked, es, nx, ny) && InGrid(asked, nx, ny)
    ensures Taken(table, AlignmentOf(es), rs, nx, ny)
  {
    hide Counted, AlignmentOf, Taken, Count, ValidScript;
    assert LenX(es) == nx && LenY(es) == ny by { ItsLengths(f, asked, es, nx, ny); }
    rs := [];
    var r := Result(0, 0);
    NothingCounted(table, es, nx, ny);
    for k := 0 to |es|
      invariant Counted(table, es, k, rs, r, nx, ny)
    {
      PairIsTabulated(f, asked, table, es, k, nx, ny);
      var (i, j) := Cell(es, k);
      var x := if es[k].Identity? || es[k].Modified? then table[i][j] else Result(0, 1);
      rs := OneMoreCounted(f, asked, table, es, k, rs, r, x, nx, ny);
      r := Plus(r, x);
    }
    AllCounted(table, es, rs, r, nx, ny);
  }

  lemma {:induction false} ScriptIsFair(
      f: EqualFunc, asked: seq<(int, int)>, table: Table, xs: seq<Snap>, ys: seq<Snap>, es: EditScript)
    requires Tabulates(table, xs, ys) && f == Lookup(table, |xs|, |ys|)
    requires ValidScript(f, asked, es, |xs|, |ys|) && InGrid(asked, |xs|, |ys|) && KeepsEnds(f, es, |xs|, |ys|)
    ensures IsFair(xs, ys, AlignmentOf(es))
  {
    var rs := ScriptTakes(f, asked, table, es, |xs|, |ys|);
    var at := AlignmentOf(es);
    hide Taken, Fair, Scores, Scored, SnapEq, KeepsEnds, AlignmentOf, PairsCommonEnds;
    TakenScores(table, xs, ys, at, rs);
    ScriptPairs(table, xs, ys, es);
    ItIsFair(table, xs, ys, at, rs);
  }

  lemma {:induction false} NodesReported(t: Type, xs: seq<Snap>, ys: seq<Snap>, es: EditScript, ns: seq<nat>, n: nat)
    requires IsNodeList(t) && LenX(es) == |xs| && ReportedSoFar(xs, ys, es, |es|, ns, n) && IsFair(xs, ys, AlignmentOf(es))
    ensures Reported(ListS(t, xs), ListS(t, ys), n)
  {
    assert es[..|es|] == es && xs[..|xs|] == xs;
    assert Reports(xs, ys, AlignmentOf(es), ns);
  }

  /** changeFinder; `changes` counts the sections it reports. */
  class ChangeFinder {
    var changes: nat

    constructor ()
      ensures changes == 0
    {
      changes := 0;
    }

    method Changed()
      modifies this
      ensures changes == old(changes) + 1
    {
      changes := changes + 1;
    }

    /**
     * Reports the changed sections, so nothing on equal trees, and answers true exactly for equal trees without nil where it
     * looks.
     */
    method Walk(from: Snap, to: Snap) returns (equal: bool)
      requires Shaped(from) && Shaped(to)
      modifies this
      ensures changes >= old(changes) && Reported(from, to, changes - old(changes))
      ensures SnapEq(from, to) ==> changes == old(changes)
      ensures equal <==> SnapEq(from, to) && NoNil(from)
      decreases from, 2
    {
      var t := SnapType(from);
      if t != SnapType(to) {
        Changed();
        return false;
      }
      if t == OBJECT_PTR || t == COMMENT_GROUP_PTR {
        return true;
      }
      match from {
        case PosS(p) =>
          if p.IsValid() != to.pos.IsValid() {
            Changed();
            return false;
          }
          return true;
        case NilS(_) =>
          return false;
        case RefS(_, e) =>
          if to.NilS? {
            Changed();
            return false;
          }
          equal := Walk(e, to.elem);
        case ListS(_, children) =>
          if t.SliceT? {
            equal := WalkSlice(t, children, to.children);
          } else {
            equal := WalkStruct(t, children, to.children);
          }
        case PrimS(_, lit) =>
          if lit == to.lit {
            return true;
          }
          Changed();
          return false;
      }
    }

    method WalkStruct(ghost t: Type, from: seq<Snap>, to: seq<Snap>) returns (equal: bool)
      requires ShapedAll(from) && ShapedAll(to) && |from| == |to| && !t.PtrT? && !IsNodeList(t)
      modifies this
      ensures changes >= old(changes) && Reported(ListS(t, from), ListS(t, to), changes - old(changes))
      ensures SnapEqAll(from, to) ==> changes == old(changes)
      ensures equal <==> SnapEqAll(from, to) && NoNilAll(from)
      decreases from, 0
    {
      hide SnapEq, Shaped, NoNil, Reported, SumOf;
      equal := true;
      ghost var ns: seq<nat> := [];
      assert SumOf(ns) == 0 by { NoneReported(ns); }
      for i := 0 to |from|
        invariant SnapEqAll(from, to) ==> changes == old(changes)
        invariant equal <==> forall k | 0 <= k < i :: SnapEq(from[k], to[k]) && NoNil(from[k])
        invariant |ns| == i && changes == old(changes) + SumOf(ns)
        invariant forall k | 0 <= k < i :: Reported(from[k], to[k], ns[k])
      {
        ghost var before := changes;
        var same := Walk(from[i], to[i]);
        equal := same && equal;
        SumOfMore(ns, changes - before);
        ns := ns + [changes - before];
      }
      StructReported(t, from, to, ns);
    }

    method WalkSlice(t: Type, from: seq<Snap>, to: seq<Snap>) returns (equal: bool)
      requires ShapedAll(from) && ShapedAll(to) && t.SliceT?
      modifies this
      ensures changes >= old(changes) && Reported(ListS(t, from), ListS(t, to), changes - old(changes))
      ensures SnapEqAll(from, to) ==> changes == old(changes)
      ensures equal <==> SnapEqAll(from, to) && (IsNodeType(t.elem) || NoNilAll(from))
      decreases from, 1
    {
      if !IsNodeType(t.elem) {
        if |from| != |to| {
          Changed();
          return false;
        }
        equal := WalkStruct(t, from, to);
      } else {
        equal := WalkNodes(t, from, to);
      }
    }

    /** A list of nodes: follows the edit script, and looks into modified nodes only. */
    method WalkNodes(ghost t: Type, from: seq<Snap>, to: seq<Snap>) returns (equal: bool)
      requires ShapedAll(from) && ShapedAll(to) && IsNodeList(t)
      modifies this
      ensures changes >= old(changes) && Reported(ListS(t, from), ListS(t, to), changes - old(changes))
      ensures SnapEqAll(from, to) ==> changes == old(changes)
      ensures equal <==> SnapEqAll(from, to)
      decreases from, 0
    {
      hide SnapEq, Shaped, Count, Scored, Reported, ReportedSoFar, AlignmentOf, KeepsEnds, IsFair, ValidScript, InGrid;
      var table := CompareAll(from, to);
      var f := Lookup(table, |from|, |to|);
      ghost var asked;
      var es;
      es, asked := Difference(|from|, |to|, f);
      FreeMeansEqual(table, from, to, es);
      equal := true;
      var i, j := 0, 0;
      ghost var ns: seq<nat> := [];
      ItsLengths(f, asked, es, |from|, |to|);
      NothingReported(from, to, es);
      for k := 0 to |es|
        invariant (i, j) == Cell(es, k)
        invariant RanStraight([], es) ==> changes == old(changes)
        invariant equal <==> forall l | 0 <= l < k :: es[l] == Identity
        invariant changes >= old(changes) && ReportedSoFar(from, to, es, k, ns, changes - old(changes))
      {
        Next(es, k);
        PairIsTabulated(f, asked, table, es, k, |from|, |to|);
        ghost var n := changes - old(changes);
        match es[k] {
          case Identity =>
            EqualIsSilent(from[i], to[j]);
            ns := OneMoreReported(from, to, es, k, ns, n, 0);
            i, j := i + 1, j + 1;
          case Modified =>
            equal := false;
            var _ := Walk(from[i], to[j]);
            ns := OneMoreReported(from, to, es, k, ns, n, changes - old(changes) - n);
            i, j := i + 1, j + 1;
          case UniqueX =>
            equal := false;
            Changed();
            ns := OneMoreReported(from, to, es, k, ns, n, 1);
            i := i + 1;
          case UniqueY =>
            equal := false;
            ns := OneMoreReported(from, to, es, k, ns, n, 0);
            j := j + 1;
        }
      }
      ScriptIsFair(f, asked, table, from, to, es);
      NodesReported(t, from, to, es, ns, changes - old(changes));
    }
  }

  /**
   * Snapshot.Diff: how many changed sections the diff of two trees reports. None is reported for equal trees, and only if
   * the old tree is kept in the new one.
   */
  method Diff(before: Snap, after: Value) returns (changes: nat, now: Snap)
    requires Shaped(before) && WellTyped(after)
    ensures now == Snapshot(after)
    ensures Reported(before, now, changes)
    ensures SnapEq(before, now) ==> changes == 0
    ensures changes == 0 ==> Kept(before, now)
  {
    SnapshotIsShaped(after);
    now := Snapshot(after);
    var finder := new ChangeFinder();
    var _ := finder.Walk(before, now);
    changes := finder.changes;
    if changes == 0 {
      SilenceKeeps(before, now);
    }
  }
}
