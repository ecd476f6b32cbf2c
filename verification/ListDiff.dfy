/** Model of internal/diff/diff.go: the greedy, meet-in-the-middle list diff. */
module ListDiff {

  datatype EditType = Identity | UniqueX | UniqueY | Modified

  type EditScript = seq<EditType>

  /** Numbers of equal and of unequal sub-elements found by one comparison. */
  datatype Result = Result(numSame: nat, numDiff: nat) {
    predicate Equal() {
      numDiff == 0
    }

    predicate Similar() {
      numSame + 1 >= numDiff
    }
  }

  /** The comparison; its precondition is the set of index pairs it may be asked about. */
  type EqualFunc = (int, int) --> Result

  datatype Point = Point(x: int, y: int)

  // ---------------------------------------------------------------- scripts

  function Count(es: EditScript, t: EditType): (n: nat)
    ensures n <= |es|
  {
    if es == [] then 0 else Count(es[..|es| - 1], t) + if es[|es| - 1] == t then 1 else 0
  }

  method Stats(es: EditScript) returns (ni: nat, nx: nat, ny: nat, nm: nat)
    ensures ni == Count(es, Identity) && nx == Count(es, UniqueX)
    ensures ny == Count(es, UniqueY) && nm == Count(es, Modified)
    ensures ni + nx + ny + nm == |es|
  {
    ni, nx, ny, nm := 0, 0, 0, 0;
    for i := 0 to |es|
      invariant ni == Count(es[..i], Identity) && nx == Count(es[..i], UniqueX)
      invariant ny == Count(es[..i], UniqueY) && nm == Count(es[..i], Modified)
      invariant ni + nx + ny + nm == i
    {
      assert es[..i + 1][..i] == es[..i];
      match es[i]
      case Identity => ni := ni + 1;
      case UniqueX => nx := nx + 1;
      case UniqueY => ny := ny + 1;
      case Modified => nm := nm + 1;
    }
    assert es[..|es|] == es;
  }

  function Dist(es: EditScript): nat {
    |es| - Count(es, Identity)
  }

  function LenX(es: EditScript): nat {
    |es| - Count(es, UniqueY)
  }

  function LenY(es: EditScript): nat {
    |es| - Count(es, UniqueX)
  }

  /** The index pair at which step k of a script stands: what the steps before it consumed. */
  function Cell(es: EditScript, k: nat): (int, int)
    requires k <= |es|
  {
    (LenX(es[..k]), LenY(es[..k]))
  }

  /** A diagonal step agrees with the comparison at its cell, which the comparison was asked about. */
  ghost predicate StepOk(f: EqualFunc, asked: seq<(int, int)>, t: EditType, x: int, y: int) {
    (t.Identity? || t.Modified?) ==>
      && f.requires(x, y)
      && (x, y) in asked
      && (if t.Identity? then f(x, y).Equal() else !f(x, y).Equal() && f(x, y).Similar())
  }

  /** The comparison was asked about this cell and found nothing similar. */
  ghost predicate Dissimilar(f: EqualFunc, asked: seq<(int, int)>, x: int, y: int) {
    (x, y) in asked && f.requires(x, y) && !f(x, y).Similar()
  }

  /** Where an item of one list is dropped right beside one of the other list, the two are not even similar. */
  ghost predicate TurnOk(f: EqualFunc, asked: seq<(int, int)>, s: EditType, t: EditType, x: int, y: int) {
    (s.UniqueX? && t.UniqueY?) || (s.UniqueY? && t.UniqueX?) ==> Dissimilar(f, asked, x, y)
  }

  /** What `Difference` promises of its script for lists of nx and ny items. */
  ghost predicate ValidScript(f: EqualFunc, asked: seq<(int, int)>, es: EditScript, nx: nat, ny: nat) {
    && LenX(es) == nx
    && LenY(es) == ny
    && (forall k | 0 <= k < |es| :: StepOk(f, asked, es[k], Cell(es, k).0, Cell(es, k).1))
    && forall k | 0 <= k && k + 1 < |es| :: TurnOk(f, asked, es[k], es[k + 1], Cell(es, k).0, Cell(es, k).1)
  }

  function DX(t: EditType): int {
    if t.UniqueY? then 0 else 1
  }

  function DY(t: EditType): int {
    if t.UniqueX? then 0 else 1
  }

  /** The script walks the edit graph from (x0, y0) to (x1, y1) through steps that are all in order. */
  ghost predicate Leads(f: EqualFunc, asked: seq<(int, int)>, es: EditScript, x0: int, y0: int, x1: int, y1: int)
    decreases |es|
  {
    if es == [] then
      x0 == x1 && y0 == y1
    else
      var t := es[|es| - 1];
      && StepOk(f, asked, t, x1 - DX(t), y1 - DY(t))
      && (|es| > 1 ==> TurnOk(f, asked, es[|es| - 2], t, x1 - DX(t) - DX(es[|es| - 2]), y1 - DY(t) - DY(es[|es| - 2])))
      && Leads(f, asked, es[..|es| - 1], x0, y0, x1 - DX(t), y1 - DY(t))
  }

  lemma {:induction false} LeadsAppend(f: EqualFunc, asked: seq<(int, int)>, es: EditScript, x0: int, y0: int, x1: int, y1: int, t: EditType)
    requires Leads(f, asked, es, x0, y0, x1, y1)
    requires StepOk(f, asked, t, x1, y1)
    requires es != [] ==> TurnOk(f, asked, es[|es| - 1], t, x1 - DX(es[|es| - 1]), y1 - DY(es[|es| - 1]))
    ensures Leads(f, asked, es + [t], x0, y0, x1 + DX(t), y1 + DY(t))
  {
    assert (es + [t])[..|es|] == es;
  }

  lemma {:induction false} LeadsPrepend(
      f: EqualFunc, asked: seq<(int, int)>, es: EditScript, x0: int, y0: int, x1: int, y1: int, t: EditType)
    requires Leads(f, asked, es, x0, y0, x1, y1)
    requires StepOk(f, asked, t, x0 - DX(t), y0 - DY(t))
    requires es != [] ==> TurnOk(f, asked, t, es[0], x0 - DX(t), y0 - DY(t))
    ensures Leads(f, asked, [t] + es, x0 - DX(t), y0 - DY(t), x1, y1)
    decreases |es|
  {
    if es == [] {
      assert ([t] + es)[..0] == [];
    } else {
      var last := es[|es| - 1];
      LeadsPrepend(f, asked, es[..|es| - 1], x0, y0, x1 - DX(last), y1 - DY(last), t);
      assert ([t] + es)[..|es|] == [t] + es[..|es| - 1];
    }
  }

  lemma {:induction false} LeadsMore(
      f: EqualFunc, asked: seq<(int, int)>, more: seq<(int, int)>, es: EditScript, x0: int, y0: int, x1: int, y1: int)
    requires Leads(f, asked, es, x0, y0, x1, y1)
    requires asked <= more
    ensures Leads(f, more, es, x0, y0, x1, y1)
    decreases |es|
  {
    if es != [] {
      var t := es[|es| - 1];
      assert forall c | c in asked :: c in more;
      LeadsMore(f, asked, more, es[..|es| - 1], x0, y0, x1 - DX(t), y1 - DY(t));
    }
  }

  /** One more step of a script. */
  lemma {:induction false} Next(es: EditScript, k: nat)
    requires k < |es|
    ensures Cell(es, k + 1) == (Cell(es, k).0 + DX(es[k]), Cell(es, k).1 + DY(es[k]))
  {
    assert es[..k + 1][..k] == es[..k];
  }

  lemma {:induction false} CellOfLonger(es: EditScript, t: EditType, k: nat)
    requires k <= |es|
    ensures Cell(es + [t], k) == Cell(es, k)
  {
    assert (es + [t])[..k] == es[..k];
  }

  lemma {:induction false} WholeCell(es: EditScript)
    ensures Cell(es, |es|) == (LenX(es), LenY(es))
  {
    assert es[..|es|] == es;
  }

  lemma {:induction false} CellsValid(f: EqualFunc, asked: seq<(int, int)>, es: EditScript, t: EditType)
    requires ValidScript(f, asked, es, LenX(es), LenY(es)) && StepOk(f, asked, t, LenX(es), LenY(es))
    requires es != [] ==> TurnOk(f, asked, es[|es| - 1], t, LenX(es) - DX(es[|es| - 1]), LenY(es) - DY(es[|es| - 1]))
    ensures var more := es + [t];
      && (forall k | 0 <= k < |more| :: StepOk(f, asked, more[k], Cell(more, k).0, Cell(more, k).1))
      && forall k | 0 <= k && k + 1 < |more| :: TurnOk(f, asked, more[k], more[k + 1], Cell(more, k).0, Cell(more, k).1)
  {
    hide StepOk, TurnOk, LenX, LenY, Cell;
    var n, more := |es|, es + [t];
    assert more[..n] == es;
    forall k | 0 <= k <= n ensures Cell(more, k) == Cell(es, k) { CellOfLonger(es, t, k); }
    assert Cell(es, n) == (LenX(es), LenY(es)) by { WholeCell(es); }
    if n > 0 { Next(es, n - 1); }
  }

  lemma {:induction false} ValidLast(f: EqualFunc, asked: seq<(int, int)>, es: EditScript, nx: nat, ny: nat, t: EditType)
    requires ValidScript(f, asked, es, nx, ny) && StepOk(f, asked, t, nx, ny)
    requires es != [] ==> TurnOk(f, asked, es[|es| - 1], t, nx - DX(es[|es| - 1]), ny - DY(es[|es| - 1]))
    ensures ValidScript(f, asked, es + [t], nx + DX(t), ny + DY(t))
  {
    hide StepOk, TurnOk;
    var n, more := |es|, es + [t];
    assert more[..n] == es;
    CellsValid(f, asked, es, t);
  }

  /** Walking a script step by step is the same as the positional reading of it. */
  lemma {:induction false} LeadsIsValid(f: EqualFunc, asked: seq<(int, int)>, es: EditScript, x1: int, y1: int)
    requires Leads(f, asked, es, 0, 0, x1, y1)
    ensures x1 == LenX(es) && y1 == LenY(es)
    ensures ValidScript(f, asked, es, LenX(es), LenY(es))
    decreases |es|
  {
    if es != [] {
      var n := |es| - 1;
      var t := es[n];
      LeadsIsValid(f, asked, es[..n], x1 - DX(t), y1 - DY(t));
      ValidLast(f, asked, es[..n], x1 - DX(t), y1 - DY(t), t);
      assert es[..n] + [t] == es;
    }
  }

  lemma {:induction false} LeadsNowhere(f: EqualFunc, asked: seq<(int, int)>, x0: int, y0: int, x1: int, y1: int)
    ensures Leads(f, asked, [], x0, y0, x1, y1) <==> x0 == x1 && y0 == y1
  {
  }

  function Reverse(es: EditScript): (r: EditScript)
    ensures |r| == |es|
  {
    if es == [] then [] else [es[|es| - 1]] + Reverse(es[..|es| - 1])
  }

  lemma {:induction false} ReverseEnds(es: EditScript)
    ensures es != [] ==> Reverse(es)[0] == es[|es| - 1] && Reverse(es)[|es| - 1] == es[0]
  {
    if |es| > 1 {
      ReverseEnds(es[..|es| - 1]);
    }
  }

  lemma {:induction false} ReverseAppend(es: EditScript, t: EditType)
    ensures Reverse(es + [t]) == [t] + Reverse(es)
  {
    assert (es + [t])[..|es|] == es;
  }

  /** One more step in front of a reversed script. */
  lemma {:induction false} ReverseLeads(
      f: EqualFunc, asked: seq<(int, int)>, es: EditScript, x0: int, y0: int, x1: int, y1: int, t: EditType)
    requires Leads(f, asked, Reverse(es), x0, y0, x1, y1)
    requires StepOk(f, asked, t, x0 - DX(t), y0 - DY(t))
    requires es != [] ==> TurnOk(f, asked, t, es[|es| - 1], x0 - DX(t), y0 - DY(t))
    ensures Leads(f, asked, Reverse(es + [t]), x0 - DX(t), y0 - DY(t), x1, y1)
  {
    hide Leads, StepOk, TurnOk;
    ReverseEnds(es);
    LeadsPrepend(f, asked, Reverse(es), x0, y0, x1, y1, t);
    ReverseAppend(es, t);
  }

  /** Every cell of the grid may be asked about. */
  ghost predicate Covers(f: EqualFunc, nx: nat, ny: nat) {
    forall i, j :: 0 <= i < nx && 0 <= j < ny ==> f.requires(i, j)
  }

  /** No two items match. */
  ghost predicate NothingMatches(f: EqualFunc, nx: nat, ny: nat) {
    forall i, j :: 0 <= i < nx && 0 <= j < ny ==> f.requires(i, j) && !f(i, j).Equal()
  }

  /** No callback left the grid. */
  ghost predicate InGrid(asked: seq<(int, int)>, nx: nat, ny: nat) {
    forall c | c in asked :: 0 <= c.0 < nx && 0 <= c.1 < ny
  }

  // ------------------------------------------------------------------- gaps

  /** The pair of items in front of a leading point that moves with `dir`. */
  function Ahead(at: Point, dir: int): (int, int) {
    if dir > 0 then (at.x, at.y) else (at.x - 1, at.y - 1)
  }

  function Moved(at: Point, dir: int, t: EditType): Point {
    if dir > 0 then Point(at.x + DX(t), at.y + DY(t)) else Point(at.x - DX(t), at.y - DY(t))
  }

  /** On the way to dst there are at least as many items of the first list left as of the second one; from behind, more. */
  predicate FirstIsLonger(at: Point, dir: int, dst: Point) {
    if dir > 0 then dst.x - at.x >= dst.y - at.y else at.x - dst.x > at.y - dst.y
  }

  /**
   * The step that is taken at a leading point on its way to dst: the next two items together if they are equal or similar,
   * and otherwise one item of the list of which more is left; near the end, all that is left of one list.
   */
  ghost predicate Closes(f: EqualFunc, dir: int, t: EditType, at: Point, dst: Point) {
    if at.x == dst.x then t.UniqueY?
    else if at.y == dst.y then t.UniqueX?
    else
      var (x, y) := Ahead(at, dir);
      && f.requires(x, y)
      && t == if f(x, y).Equal() then Identity else if f(x, y).Similar() then Modified
              else if FirstIsLonger(at, dir, dst) then UniqueX else UniqueY
  }

  /** The steps lead from a point to another, each the one to take on the way to dst. */
  ghost predicate ClosesGap(f: EqualFunc, dir: int, steps: EditScript, from: Point, at: Point, dst: Point)
    decreases |steps|
  {
    if steps == [] then
      from == at
    else
      var t := steps[|steps| - 1];
      var prev := if dir > 0 then Point(at.x - DX(t), at.y - DY(t)) else Point(at.x + DX(t), at.y + DY(t));
      Closes(f, dir, t, prev, dst) && ClosesGap(f, dir, steps[..|steps| - 1], from, prev, dst)
  }

  lemma {:induction false} NoGap(f: EqualFunc, dir: int, es: EditScript, from: Point, dst: Point)
    ensures ClosesGap(f, dir, es[|es|..], from, from, dst)
  {
  }

  lemma {:induction false} GapGrows(
      f: EqualFunc, dir: int, es: EditScript, n: nat, from: Point, at: Point, dst: Point, t: EditType)
    requires n <= |es| && ClosesGap(f, dir, es[n..], from, at, dst) && Closes(f, dir, t, at, dst)
    ensures ClosesGap(f, dir, (es + [t])[n..], from, Moved(at, dir, t), dst)
  {
    hide Closes;
    assert (es + [t])[n..] == es[n..] + [t];
    assert (es[n..] + [t])[..|es| - n] == es[n..];
  }

  /** A gap of nothing is closed by nothing. */
  lemma {:induction false} GapMoves(f: EqualFunc, dir: int, es: EditScript, n: nat, from: Point, at: Point, dst: Point)
    requires (dir == 1 || dir == -1) && n <= |es| && ClosesGap(f, dir, es[n..], from, at, dst)
    ensures |es| - n <= if dir > 0 then at.x - from.x + at.y - from.y else from.x - at.x + from.y - at.y
    decreases |es|
  {
    if n < |es| {
      var t := es[|es| - 1];
      assert es[n..][|es| - n - 1] == t && es[n..][..|es| - n - 1] == es[..|es| - 1][n..];
      var prev := if dir > 0 then Point(at.x - DX(t), at.y - DY(t)) else Point(at.x + DX(t), at.y + DY(t));
      GapMoves(f, dir, es[..|es| - 1], n, from, prev, dst);
    }
  }

  lemma {:induction false} ClosingIsOk(f: EqualFunc, asked: seq<(int, int)>, dir: int, t: EditType, at: Point, dst: Point)
    requires Closes(f, dir, t, at, dst) && (t.Identity? || t.Modified? ==> Ahead(at, dir) in asked)
    ensures dir > 0 ==> StepOk(f, asked, t, at.x, at.y)
    ensures dir < 0 ==> StepOk(f, asked, t, at.x - DX(t), at.y - DY(t))
  {
  }

  // ------------------------------------------------------------------- path

  /** One end of the script: a leading point that moves with `dir` as steps are appended. */
  class Path {
    const dir: int
    var x: int
    var y: int
    var es: EditScript

    constructor (dir: int, x: int, y: int)
      ensures this.dir == dir && this.x == x && this.y == y && es == []
    {
      this.dir, this.x, this.y, this.es := dir, x, y, [];
    }

    /** The leading point. */
    ghost function At(): Point
      reads this
    {
      Point(x, y)
    }

    /** The steps so far connect the origin of the path with its leading point. */
    ghost predicate Traced(f: EqualFunc, asked: seq<(int, int)>, ox: int, oy: int)
      reads this
    {
      if dir > 0 then Leads(f, asked, es, ox, oy, x, y) else Leads(f, asked, Reverse(es), x, y, ox, oy)
    }

    /** Nothing but matches was found last. */
    ghost predicate Settled()
      reads this
    {
      es == [] || es[|es| - 1].Identity?
    }

    /** After a step t from the leading point, a turn stands at the corner of two items that are not similar. */
    ghost predicate MayTurn(f: EqualFunc, asked: seq<(int, int)>, t: EditType)
      reads this
    {
      es == [] ||
      if dir > 0 then TurnOk(f, asked, es[|es| - 1], t, x - DX(es[|es| - 1]), y - DY(es[|es| - 1]))
      else TurnOk(f, asked, t, es[|es| - 1], x - DX(t), y - DY(t))
    }

    method Append(t: EditType)
      modifies this
      ensures es == old(es) + [t]
      ensures x == old(x) + dir * DX(t) && y == old(y) + dir * DY(t)
    {
      es := es + [t];
      match t
      case Identity => x, y := x + dir, y + dir;
      case Modified => x, y := x + dir, y + dir;
      case UniqueX => x := x + dir;
      case UniqueY => y := y + dir;
    }

    /** Append, keeping the trace: the step taken lies in front of the leading point. */
    method Step(t: EditType, ghost f: EqualFunc, ghost asked: seq<(int, int)>, ghost ox: int, ghost oy: int)
      requires dir == 1 || dir == -1
      requires Traced(f, asked, ox, oy)
      requires if dir > 0 then StepOk(f, asked, t, x, y) else StepOk(f, asked, t, x - DX(t), y - DY(t))
      requires MayTurn(f, asked, t)
      modifies this
      ensures es == old(es) + [t]
      ensures dir > 0 ==> x == old(x) + DX(t) && y == old(y) + DY(t)
      ensures dir < 0 ==> x == old(x) - DX(t) && y == old(y) - DY(t)
      ensures Traced(f, asked, ox, oy)
    {
      hide Leads, StepOk, TurnOk, Reverse;
      if dir > 0 {
        LeadsAppend(f, asked, es, ox, oy, x, y, t);
      } else {
        ReverseLeads(f, asked, es, x, y, ox, oy, t);
      }
      Append(t);
    }

    /** One step on the way to dst, towards which the steps from index n on have led. */
    method StepTowards(
        dst: Point, t: EditType, ghost f: EqualFunc, ghost asked: seq<(int, int)>, ghost ox: int, ghost oy: int,
        ghost n: nat, ghost from: Point)
      requires dir == 1 || dir == -1
      requires Traced(f, asked, ox, oy) && MayTurn(f, asked, t)
      requires Closes(f, dir, t, At(), dst) && (t.Identity? || t.Modified? ==> Ahead(At(), dir) in asked)
      requires n <= |es| && ClosesGap(f, dir, es[n..], from, At(), dst)
      modifies this
      ensures es == old(es) + [t]
      ensures dir > 0 ==> x == old(x) + DX(t) && y == old(y) + DY(t)
      ensures dir < 0 ==> x == old(x) - DX(t) && y == old(y) - DY(t)
      ensures Traced(f, asked, ox, oy)
      ensures ClosesGap(f, dir, es[n..], from, At(), dst)
    {
      hide Leads, Reverse, StepOk, TurnOk, Closes, ClosesGap;
      ClosingIsOk(f, asked, dir, t, At(), dst);
      GapGrows(f, dir, es, n, from, At(), dst, t);
      Step(t, f, asked, ox, oy);
    }

    lemma {:induction false} More(f: EqualFunc, asked: seq<(int, int)>, more: seq<(int, int)>, ox: int, oy: int)
      requires Traced(f, asked, ox, oy) && asked <= more
      ensures Traced(f, more, ox, oy)
      ensures forall t :: MayTurn(f, asked, t) ==> MayTurn(f, more, t)
    {
      assert forall c | c in asked :: c in more;
      if dir > 0 {
        LeadsMore(f, asked, more, es, ox, oy, x, y);
      } else {
        LeadsMore(f, asked, more, Reverse(es), x, y, ox, oy);
      }
    }

    /** When one of the lists is at its end, the other one is closed item by item. */
    method CloseRest(
        dst: Point, ghost f: EqualFunc, ghost asked: seq<(int, int)>, ghost ox: int, ghost oy: int,
        ghost n: nat, ghost from: Point)
      requires dir == 1 || dir == -1
      requires if dir > 0 then x <= dst.x && y <= dst.y else dst.x <= x && dst.y <= y
      requires x == dst.x || y == dst.y
      requires Traced(f, asked, ox, oy) && MayTurn(f, asked, UniqueX) && MayTurn(f, asked, UniqueY)
      requires n <= |es| && ClosesGap(f, dir, es[n..], from, At(), dst)
      modifies this
      ensures x == dst.x && y == dst.y
      ensures Traced(f, asked, ox, oy)
      ensures old(es) <= es && ClosesGap(f, dir, es[n..], from, At(), dst)
    {
      hide Leads, Reverse, Traced, StepOk, ClosesGap;
      while x != dst.x
        invariant if dir > 0 then x <= dst.x && y <= dst.y else dst.x <= x && dst.y <= y
        invariant x == dst.x || y == dst.y
        invariant Traced(f, asked, ox, oy) && MayTurn(f, asked, UniqueX)
        invariant y != dst.y ==> MayTurn(f, asked, UniqueY)
        invariant old(es) <= es && ClosesGap(f, dir, es[n..], from, At(), dst)
        decreases if dir > 0 then dst.x - x else x - dst.x
      {
        StepTowards(dst, UniqueX, f, asked, ox, oy, n, from);
      }
      while y != dst.y
        invariant x == dst.x && if dir > 0 then y <= dst.y else dst.y <= y
        invariant Traced(f, asked, ox, oy)
        invariant y != dst.y ==> MayTurn(f, asked, UniqueY)
        invariant old(es) <= es && ClosesGap(f, dir, es[n..], from, At(), dst)
        decreases if dir > 0 then dst.y - y else y - dst.y
      {
        StepTowards(dst, UniqueY, f, asked, ox, oy, n, from);
      }
    }

    /** Moves the leading point to `dst`, following equal and similar pairs along the way. */
    method Connect(dst: Point, nx: nat, ny: nat, f: EqualFunc, ghost asked: seq<(int, int)>, ghost ox: int, ghost oy: int)
      returns (ghost asked': seq<(int, int)>)
      requires dir == 1 || dir == -1
      requires 0 <= x <= nx && 0 <= y <= ny && 0 <= dst.x <= nx && 0 <= dst.y <= ny
      requires dir > 0 ==> x <= dst.x && y <= dst.y
      requires dir < 0 ==> dst.x <= x && dst.y <= y
      requires Covers(f, nx, ny) && InGrid(asked, nx, ny)
      requires Traced(f, asked, ox, oy) && Settled()
      modifies this
      ensures x == dst.x && y == dst.y
      ensures asked <= asked' && InGrid(asked', nx, ny)
      ensures Traced(f, asked', ox, oy)
      ensures dir > 0 ==> |asked'| - |asked| <= x - old(x) + y - old(y)
      ensures dir < 0 ==> |asked'| - |asked| <= old(x) - x + old(y) - y
      ensures old(es) <= es && (dst == Point(old(x), old(y)) ==> es == old(es))
      ensures ClosesGap(f, dir, es[|old(es)|..], old(At()), dst, dst)
    {
      hide ClosesGap;
      if dir > 0 {
        asked' := ConnectForward(dst, nx, ny, f, asked, ox, oy);
      } else {
        asked' := ConnectBackward(dst, nx, ny, f, asked, ox, oy);
      }
    }

    method ConnectForward(
        dst: Point, nx: nat, ny: nat, f: EqualFunc, ghost asked: seq<(int, int)>, ghost ox: int, ghost oy: int)
      returns (ghost asked': seq<(int, int)>)
      requires dir == 1
      requires 0 <= x <= dst.x <= nx && 0 <= y <= dst.y <= ny
      requires Covers(f, nx, ny) && InGrid(asked, nx, ny)
      requires Traced(f, asked, ox, oy) && Settled()
      modifies this
      ensures x == dst.x && y == dst.y
      ensures asked <= asked' && InGrid(asked', nx, ny)
      ensures Traced(f, asked', ox, oy)
      ensures |asked'| - |asked| <= x - old(x) + y - old(y)
      ensures old(es) <= es && (dst == Point(old(x), old(y)) ==> es == old(es))
      ensures ClosesGap(f, dir, es[|old(es)|..], old(At()), dst, dst)
    {
      hide Leads, Reverse, Traced, StepOk, ClosesGap;
      ghost var n, from := |es|, At();
      assert ClosesGap(f, dir, es[n..], from, At(), dst) by { NoGap(f, dir, es, from, dst); }
      asked' := asked;
      while dst.x > x && dst.y > y
        invariant 0 <= x <= dst.x && 0 <= y <= dst.y
        invariant asked <= asked' && InGrid(asked', nx, ny)
        invariant Traced(f, asked', ox, oy) && MayTurn(f, asked', UniqueX) && MayTurn(f, asked', UniqueY)
        invariant |asked'| - |asked| <= x - old(x) + y - old(y)
        invariant old(es) <= es && ClosesGap(f, dir, es[n..], from, At(), dst)
        decreases dst.x - x + dst.y - y
      {
        var r := f(x, y);
        More(f, asked', asked' + [(x, y)], ox, oy);
        asked' := asked' + [(x, y)];
        if r.Equal() {
          StepTowards(dst, Identity, f, asked', ox, oy, n, from);
        } else if r.Similar() {
          StepTowards(dst, Modified, f, asked', ox, oy, n, from);
        } else if dst.x - x >= dst.y - y {
          StepTowards(dst, UniqueX, f, asked', ox, oy, n, from);
        } else {
          StepTowards(dst, UniqueY, f, asked', ox, oy, n, from);
        }
      }
      CloseRest(dst, f, asked', ox, oy, n, from);
      GapMoves(f, dir, es, n, from, At(), dst);
    }

    method ConnectBackward(
        dst: Point, nx: nat, ny: nat, f: EqualFunc, ghost asked: seq<(int, int)>, ghost ox: int, ghost oy: int)
      returns (ghost asked': seq<(int, int)>)
      requires dir == -1
      requires 0 <= dst.x <= x <= nx && 0 <= dst.y <= y <= ny
      requires Covers(f, nx, ny) && InGrid(asked, nx, ny)
      requires Traced(f, asked, ox, oy) && Settled()
      modifies this
      ensures x == dst.x && y == dst.y
      ensures asked <= asked' && InGrid(asked', nx, ny)
      ensures Traced(f, asked', ox, oy)
      ensures |asked'| - |asked| <= old(x) - x + old(y) - y
      ensures old(es) <= es && (dst == Point(old(x), old(y)) ==> es == old(es))
      ensures ClosesGap(f, dir, es[|old(es)|..], old(At()), dst, dst)
    {
      hide Leads, Reverse, Traced, StepOk, ClosesGap;
      ghost var n, from := |es|, At();
      assert ClosesGap(f, dir, es[n..], from, At(), dst) by { NoGap(f, dir, es, from, dst); }
      asked' := asked;
      while x > dst.x && y > dst.y
        invariant dst.x <= x <= nx && dst.y <= y <= ny
        invariant asked <= asked' && InGrid(asked', nx, ny)
        invariant Traced(f, asked', ox, oy) && MayTurn(f, asked', UniqueX) && MayTurn(f, asked', UniqueY)
        invariant |asked'| - |asked| <= old(x) - x + old(y) - y
        invariant old(es) <= es && ClosesGap(f, dir, es[n..], from, At(), dst)
        decreases x - dst.x + y - dst.y
      {
        var r := f(x - 1, y - 1);
        More(f, asked', asked' + [(x - 1, y - 1)], ox, oy);
        asked' := asked' + [(x - 1, y - 1)];
        if r.Equal() {
          StepTowards(dst, Identity, f, asked', ox, oy, n, from);
        } else if r.Similar() {
          StepTowards(dst, Modified, f, asked', ox, oy, n, from);
        } else if y - dst.y >= x - dst.x {
          StepTowards(dst, UniqueY, f, asked', ox, oy, n, from);
        } else {
          StepTowards(dst, UniqueX, f, asked', ox, oy, n, from);
        }
      }
      CloseRest(dst, f, asked', ox, oy, n, from);
      GapMoves(f, dir, es, n, from, At(), dst);
    }
  }

  // ----------------------------------------------------------------- search

  /** 0, 1, 2, 3, 4, ... becomes 0, -1, 1, -2, 2, ...; `^x` is -x - 1 and `>>` rounds down. */
  function Zigzag(x: int): int {
    (if x % 2 != 0 then -x - 1 else x) / 2
  }

  /** The step at which the zig-zag reaches the diagonal z. */
  function StepOf(z: int): nat {
    if z < 0 then -2 * z - 1 else 2 * z
  }

  /** From 0 on, every diagonal is visited exactly once. */
  lemma {:induction false} ZigzagIsBijective(x: nat)
    ensures forall z :: Zigzag(x) == z <==> x == StepOf(z)
  {
  }

  /** The cell that a search from `frontier` looks at on diagonal z, in either direction. */
  function Visited(frontier: Point, dir: int, z: int): Point {
    if dir > 0 then Point(frontier.x + z, frontier.y - z) else Point(frontier.x - z - 1, frontier.y + z - 1)
  }

  /** The cell lies in the box from lo up to hi. */
  predicate Inside(p: Point, lo: Point, hi: Point) {
    lo.x <= p.x < hi.x && lo.y <= p.y < hi.y
  }

  /** No cell of the box that is visited before step i holds a match. */
  ghost predicate Refuted(f: EqualFunc, frontier: Point, dir: int, lo: Point, hi: Point, i: nat) {
    forall z :: StepOf(z) < i && Inside(Visited(frontier, dir, z), lo, hi) ==>
      f.requires(Visited(frontier, dir, z).x, Visited(frontier, dir, z).y)
      && !f(Visited(frontier, dir, z).x, Visited(frontier, dir, z).y).Equal()
  }

  /** From step i on, the search is outside the box on one side; step 0 is past. */
  ghost predicate Passed(frontier: Point, dir: int, lo: Point, hi: Point, side: int, i: nat) {
    i > 0 && forall z :: side * z > 0 && StepOf(z) >= i ==> !Inside(Visited(frontier, dir, z), lo, hi)
  }

  /** The whole diagonal of the box holds no match. */
  ghost predicate NoMatch(f: EqualFunc, frontier: Point, dir: int, lo: Point, hi: Point) {
    forall z :: Inside(Visited(frontier, dir, z), lo, hi) ==>
      f.requires(Visited(frontier, dir, z).x, Visited(frontier, dir, z).y)
      && !f(Visited(frontier, dir, z).x, Visited(frontier, dir, z).y).Equal()
  }

  lemma {:induction false} Starts(f: EqualFunc, frontier: Point, dir: int, lo: Point, hi: Point)
    ensures Refuted(f, frontier, dir, lo, hi, 0)
    ensures Visited(frontier, dir, 0) == if dir > 0 then frontier else Point(frontier.x - 1, frontier.y - 1)
  {
  }

  lemma {:induction false} OneMoreStep(f: EqualFunc, frontier: Point, dir: int, lo: Point, hi: Point, i: nat)
    requires Refuted(f, frontier, dir, lo, hi, i)
    requires var p := Visited(frontier, dir, Zigzag(i)); Inside(p, lo, hi) ==> f.requires(p.x, p.y) && !f(p.x, p.y).Equal()
    ensures Refuted(f, frontier, dir, lo, hi, i + 1)
  {
    ZigzagIsBijective(i);
    forall z | StepOf(z) < i + 1 && Inside(Visited(frontier, dir, z), lo, hi)
      ensures f.requires(Visited(frontier, dir, z).x, Visited(frontier, dir, z).y)
      ensures !f(Visited(frontier, dir, z).x, Visited(frontier, dir, z).y).Equal()
    {
      assert StepOf(z) == i ==> z == Zigzag(i);
    }
  }

  /** What has been passed stays passed. */
  lemma {:induction false} StaysPassed(frontier: Point, dir: int, lo: Point, hi: Point, side: int, i: nat)
    requires Passed(frontier, dir, lo, hi, side, i)
    ensures Passed(frontier, dir, lo, hi, side, i + 1)
  {
  }

  predicate AtFirstCorner(p: Point, dir: int, lo: Point, hi: Point) {
    if dir > 0 then p.x >= hi.x || p.y < lo.y else p.x < lo.x || p.y >= hi.y
  }

  predicate AtSecondCorner(p: Point, dir: int, lo: Point, hi: Point) {
    if dir > 0 then p.y >= hi.y || p.x < lo.x else p.y < lo.y || p.x >= hi.x
  }

  /** A corner is hit on one side only, and the search does not come back into the box there. */
  lemma {:induction false} HitsCorner(frontier: Point, dir: int, lo: Point, hi: Point, side: int, i: nat)
    requires dir == 1 || dir == -1
    requires Inside(Visited(frontier, dir, 0), lo, hi)
    requires var p := Visited(frontier, dir, Zigzag(i));
      (side == 1 && AtFirstCorner(p, dir, lo, hi)) || (side == -1 && AtSecondCorner(p, dir, lo, hi))
    ensures Passed(frontier, dir, lo, hi, side, i + 1)
  {
    ZigzagIsBijective(i);
  }

  lemma {:induction false} BothSidesPassed(f: EqualFunc, frontier: Point, dir: int, lo: Point, hi: Point, i: nat)
    requires Refuted(f, frontier, dir, lo, hi, i)
    requires Passed(frontier, dir, lo, hi, 1, i) && Passed(frontier, dir, lo, hi, -1, i)
    ensures NoMatch(f, frontier, dir, lo, hi)
  {
    forall z | Inside(Visited(frontier, dir, z), lo, hi)
      ensures f.requires(Visited(frontier, dir, z).x, Visited(frontier, dir, z).y)
      ensures !f(Visited(frontier, dir, z).x, Visited(frontier, dir, z).y).Equal()
    {
      assert 1 * z > 0 || -1 * z > 0 || z == 0;
      assert StepOf(z) < i;
    }
  }

  /** How far a search can be from the frontier inside the box. */
  function Width(frontier: Point, dir: int, lo: Point, hi: Point): int {
    if dir > 0 then hi.x - frontier.x + hi.y - frontier.y else frontier.x - lo.x + frontier.y - lo.y
  }

  /** What is known of a search before step i; it stops on a side when it has passed the corner there. */
  ghost predicate Searching(
      f: EqualFunc, frontier: Point, dir: int, lo: Point, hi: Point, i: nat, stop1: bool, stop2: bool) {
    && Refuted(f, frontier, dir, lo, hi, i)
    && (stop1 ==> Passed(frontier, dir, lo, hi, 1, i))
    && (stop2 ==> Passed(frontier, dir, lo, hi, -1, i))
    && (i > 2 * Width(frontier, dir, lo, hi) ==> stop1)
    && (i > 2 * Width(frontier, dir, lo, hi) + 1 ==> stop2)
  }

  lemma {:induction false} SearchStarts(f: EqualFunc, frontier: Point, dir: int, lo: Point, hi: Point)
    requires (dir == 1 || dir == -1) && Inside(Visited(frontier, dir, 0), lo, hi)
    ensures Searching(f, frontier, dir, lo, hi, 0, false, false)
  {
    Starts(f, frontier, dir, lo, hi);
  }

  lemma {:induction false} FarIsCorner(frontier: Point, dir: int, lo: Point, hi: Point, i: nat)
    requires (dir == 1 || dir == -1) && Inside(Visited(frontier, dir, 0), lo, hi)
    ensures var p := Visited(frontier, dir, Zigzag(i));
      && (i == 2 * Width(frontier, dir, lo, hi) ==> AtFirstCorner(p, dir, lo, hi))
      && (i == 2 * Width(frontier, dir, lo, hi) + 1 ==> !AtFirstCorner(p, dir, lo, hi) && AtSecondCorner(p, dir, lo, hi))
  {
  }

  lemma {:induction false} SearchMoves(
      f: EqualFunc, frontier: Point, dir: int, lo: Point, hi: Point, i: nat, stop1: bool, stop2: bool, p: Point)
    requires (dir == 1 || dir == -1) && Inside(Visited(frontier, dir, 0), lo, hi)
    requires Searching(f, frontier, dir, lo, hi, i, stop1, stop2) && !(stop1 && stop2)
    requires p == Visited(frontier, dir, Zigzag(i)) && (Inside(p, lo, hi) ==> f.requires(p.x, p.y) && !f(p.x, p.y).Equal())
    ensures i <= 2 * Width(frontier, dir, lo, hi) + 1
    ensures var first := AtFirstCorner(p, dir, lo, hi);
      Searching(f, frontier, dir, lo, hi, i + 1, stop1 || first, stop2 || (!first && AtSecondCorner(p, dir, lo, hi)))
  {
    hide Refuted, Passed, Visited;
    OneMoreStep(f, frontier, dir, lo, hi, i);
    FarIsCorner(frontier, dir, lo, hi, i);
    if stop1 { StaysPassed(frontier, dir, lo, hi, 1, i); }
    if stop2 { StaysPassed(frontier, dir, lo, hi, -1, i); }
    if AtFirstCorner(p, dir, lo, hi) {
      HitsCorner(frontier, dir, lo, hi, 1, i);
    } else if AtSecondCorner(p, dir, lo, hi) {
      HitsCorner(frontier, dir, lo, hi, -1, i);
    }
  }

  lemma {:induction false} SearchEnds(f: EqualFunc, frontier: Point, dir: int, lo: Point, hi: Point, i: nat)
    requires Searching(f, frontier, dir, lo, hi, i, true, true)
    ensures NoMatch(f, frontier, dir, lo, hi)
  {
    hide Refuted, Passed, NoMatch;
    BothSidesPassed(f, frontier, dir, lo, hi, i);
  }

  /** `es` grew to `es'` by a straight run of matches. */
  ghost predicate RanStraight(es: EditScript, es': EditScript) {
    es <= es' && forall k | |es| <= k < |es'| :: es'[k] == Identity
  }

  /** The i-th pair of items from a leading point on along its diagonal is a match. */
  ghost predicate MatchAt(f: EqualFunc, from: Point, dir: int, i: nat) {
    var x, y := if dir > 0 then from.x + i else from.x - 1 - i, if dir > 0 then from.y + i else from.y - 1 - i;
    f.requires(x, y) && f(x, y).Equal()
  }

  /** A path has followed the matches on the diagonal of its leading point, as far as they go within the limit. */
  ghost predicate Slid(f: EqualFunc, es: EditScript, es': EditScript, from: Point, to: Point, dir: int, limit: Point) {
    && RanStraight(es, es')
    && var n := |es'| - |es|;
       && to == (if dir > 0 then Point(from.x + n, from.y + n) else Point(from.x - n, from.y - n))
       && (forall i | 0 <= i < n :: MatchAt(f, from, dir, i))
       && (to.x != limit.x && to.y != limit.y ==> !MatchAt(f, from, dir, n))
  }

  /** The pair of items that a path with this leading point looks at next is a match. */
  ghost predicate MatchAhead(f: EqualFunc, at: Point, dir: int) {
    var x, y := if dir > 0 then at.x else at.x - 1, if dir > 0 then at.y else at.y - 1;
    f.requires(x, y) && f(x, y).Equal()
  }

  lemma {:induction false} NothingSlid(f: EqualFunc, es: EditScript, from: Point, dir: int)
    ensures Slid(f, es, es, from, from, dir, from)
  {
  }

  lemma {:induction false} SlidOn(f: EqualFunc, es: EditScript, es': EditScript, from: Point, to: Point, to': Point, dir: int)
    requires Slid(f, es, es', from, to, dir, to) && MatchAhead(f, to, dir)
    requires to' == if dir > 0 then Point(to.x + 1, to.y + 1) else Point(to.x - 1, to.y - 1)
    ensures Slid(f, es, es' + [Identity], from, to', dir, to')
  {
  }

  lemma {:induction false} SlidFar(f: EqualFunc, es: EditScript, es': EditScript, from: Point, to: Point, dir: int, limit: Point)
    requires Slid(f, es, es', from, to, dir, to)
    requires to.x == limit.x || to.y == limit.y || !MatchAhead(f, to, dir)
    ensures Slid(f, es, es', from, to, dir, limit)
  {
  }

  /** A match was found at p: connect the path to it and follow the matches behind it as far as possible. */
  method TakeForward(
      path: Path, p: Point, limit: Point, nx: nat, ny: nat, f: EqualFunc, ghost asked: seq<(int, int)>)
    returns (ghost asked': seq<(int, int)>)
    requires path.dir == 1
    requires 0 <= path.x <= p.x < limit.x <= nx && 0 <= path.y <= p.y < limit.y <= ny
    requires Covers(f, nx, ny) && InGrid(asked, nx, ny) && path.Traced(f, asked, 0, 0) && path.Settled()
    requires (p.x, p.y) in asked && f(p.x, p.y).Equal()
    modifies path
    ensures p.x < path.x <= limit.x && p.y < path.y <= limit.y
    ensures asked <= asked' && InGrid(asked', nx, ny) && path.Traced(f, asked', 0, 0) && path.Settled()
    ensures |asked'| - |asked| < path.x - old(path.x) + path.y - old(path.y)
    ensures old(path.es) <= path.es
    ensures p == old(path.At()) ==> Slid(f, old(path.es), path.es, p, path.At(), 1, limit)
    ensures path.x < limit.x && path.y < limit.y ==> !MatchAhead(f, path.At(), 1)
  {
    hide Leads, Slid, Reverse, Path.Traced;
    asked' := path.Connect(p, nx, ny, f, asked, 0, 0);
    ghost var es := path.es;
    NothingSlid(f, es, p, 1);
    SlidOn(f, es, es, p, p, Point(p.x + 1, p.y + 1), 1);
    path.Step(Identity, f, asked', 0, 0);
    ghost var x1, connected := path.x, |asked'|;
    while path.x < limit.x && path.y < limit.y
      invariant x1 <= path.x <= limit.x && p.y < path.y <= limit.y && path.x - p.x == path.y - p.y
      invariant asked <= asked' && InGrid(asked', nx, ny) && path.Traced(f, asked', 0, 0) && path.Settled()
      invariant |asked'| == connected + path.x - x1
      invariant es <= path.es && Slid(f, es, path.es, p, path.At(), 1, path.At())
      decreases limit.x - path.x
    {
      path.More(f, asked', asked' + [(path.x, path.y)], 0, 0);
      asked' := asked' + [(path.x, path.y)];
      if !f(path.x, path.y).Equal() {
        break;
      }
      SlidOn(f, es, path.es, p, path.At(), Point(path.x + 1, path.y + 1), 1);
      path.Step(Identity, f, asked', 0, 0);
    }
    SlidFar(f, es, path.es, p, path.At(), 1, limit);
  }

  method TakeBackward(
      path: Path, p: Point, limit: Point, nx: nat, ny: nat, f: EqualFunc, ghost asked: seq<(int, int)>)
    returns (ghost asked': seq<(int, int)>)
    requires path.dir == -1
    requires 0 <= limit.x < p.x <= path.x <= nx && 0 <= limit.y < p.y <= path.y <= ny
    requires Covers(f, nx, ny) && InGrid(asked, nx, ny) && path.Traced(f, asked, nx, ny) && path.Settled()
    requires (p.x - 1, p.y - 1) in asked && f(p.x - 1, p.y - 1).Equal()
    modifies path
    ensures limit.x <= path.x < p.x && limit.y <= path.y < p.y
    ensures asked <= asked' && InGrid(asked', nx, ny) && path.Traced(f, asked', nx, ny) && path.Settled()
    ensures |asked'| - |asked| < old(path.x) - path.x + old(path.y) - path.y
    ensures old(path.es) <= path.es
    ensures p == old(path.At()) ==> Slid(f, old(path.es), path.es, p, path.At(), -1, limit)
    ensures limit.x < path.x && limit.y < path.y ==> !MatchAhead(f, path.At(), -1)
  {
    hide Leads, Slid, Reverse, Path.Traced;
    asked' := path.Connect(p, nx, ny, f, asked, nx, ny);
    ghost var es := path.es;
    NothingSlid(f, es, p, -1);
    SlidOn(f, es, es, p, p, Point(p.x - 1, p.y - 1), -1);
    path.Step(Identity, f, asked', nx, ny);
    ghost var x1, connected := path.x, |asked'|;
    while limit.x < path.x && limit.y < path.y
      invariant limit.x <= path.x <= x1 && limit.y <= path.y < p.y && path.x - p.x == path.y - p.y
      invariant asked <= asked' && InGrid(asked', nx, ny) && path.Traced(f, asked', nx, ny) && path.Settled()
      invariant |asked'| == connected + x1 - path.x
      invariant es <= path.es && Slid(f, es, path.es, p, path.At(), -1, path.At())
      decreases path.x - limit.x
    {
      path.More(f, asked', asked' + [(path.x - 1, path.y - 1)], nx, ny);
      asked' := asked' + [(path.x - 1, path.y - 1)];
      if !f(path.x - 1, path.y - 1).Equal() {
        break;
      }
      SlidOn(f, es, path.es, p, path.At(), Point(path.x - 1, path.y - 1), -1);
      path.Step(Identity, f, asked', nx, ny);
    }
    SlidFar(f, es, path.es, p, path.At(), -1, limit);
  }

  /**
   * One search from the front. It zig-zags over the diagonal through the frontier, inside the box from the
   * forward path's leading point to `limit`, until a match is found, both corners are passed or the budget is
   * spent. A match moves the path, and the frontier with it.
   */
  method SearchForward(
      path: Path, limit: Point, frontier: Point, budget: nat, nx: nat, ny: nat, f: EqualFunc,
      ghost asked: seq<(int, int)>)
    returns (frontier': Point, budget': nat, ghost asked': seq<(int, int)>)
    requires path.dir == 1
    requires 0 <= path.x <= frontier.x < limit.x <= nx && 0 <= path.y <= frontier.y < limit.y <= ny
    requires Covers(f, nx, ny) && InGrid(asked, nx, ny) && path.Traced(f, asked, 0, 0) && path.Settled()
    modifies path
    ensures old(path.x) <= path.x <= limit.x && old(path.y) <= path.y <= limit.y
    ensures asked <= asked' && InGrid(asked', nx, ny) && path.Traced(f, asked', 0, 0) && path.Settled()
    ensures |asked'| + budget' <= |asked| + budget + path.x - old(path.x) + path.y - old(path.y)
    ensures path.x <= frontier'.x <= limit.x && path.y <= frontier'.y <= limit.y
    ensures frontier' == frontier || frontier'.x + frontier'.y >= frontier.x + frontier.y + 2
    ensures if frontier' == frontier then path.x == old(path.x) && path.y == old(path.y) else frontier' == Point(path.x, path.y)
    ensures frontier' == frontier && budget' > 0 ==> NoMatch(f, frontier, 1, Point(path.x, path.y), limit)
    ensures frontier' != frontier && path.x < limit.x && path.y < limit.y ==> !MatchAhead(f, path.At(), 1)
    ensures old(path.es) <= path.es && |asked'| + budget' >= |asked| + budget
    ensures NothingMatches(f, nx, ny) ==> frontier' == frontier && path.es == old(path.es)
    ensures budget > 0 && frontier == old(path.At()) ==>
      Slid(f, old(path.es), path.es, frontier, path.At(), 1, limit) && frontier' == path.At() && budget' + 1 >= budget
  {
    hide Leads, Searching, NoMatch, Slid, StepOk, TurnOk, Reverse, Path.Settled, Path.Traced;
    frontier', budget', asked' := frontier, budget, asked;
    var stop1, stop2, i := false, false, 0;
    ghost var lo := Point(path.x, path.y);
    SearchStarts(f, frontier, 1, lo, limit);
    while !(stop1 && stop2) && budget' > 0
      invariant 0 <= i <= 2 * Width(frontier, 1, lo, limit) + 2
      invariant i == 0 ==> !stop1 && !stop2 && budget' == budget
      invariant path.x == old(path.x) && path.y == old(path.y) && path.es == old(path.es)
      invariant asked <= asked' && InGrid(asked', nx, ny) && path.Traced(f, asked', 0, 0) && path.Settled()
      invariant |asked'| + budget' == |asked| + budget
      invariant Searching(f, frontier, 1, lo, limit, i, stop1, stop2)
      invariant i > 0 && frontier == lo ==> !MatchAhead(f, frontier, 1) && budget' + 1 >= budget
      decreases 2 * Width(frontier, 1, lo, limit) + 2 - i
    {
      var z := Zigzag(i);
      var p := Point(frontier.x + z, frontier.y - z);
      ghost var was1, was2 := stop1, stop2;
      if p.x >= limit.x || p.y < path.y {
        stop1 := true;
      } else if p.y >= limit.y || p.x < path.x {
        stop2 := true;
      } else {
        path.More(f, asked', asked' + [(p.x, p.y)], 0, 0);
        asked' := asked' + [(p.x, p.y)];
        if f(p.x, p.y).Equal() {
          asked' := TakeForward(path, p, limit, nx, ny, f, asked');
          frontier' := Point(path.x, path.y);
          return;
        } else {
          budget' := budget' - 1;
        }
      }
      SearchMoves(f, frontier, 1, lo, limit, i, was1, was2, p);
      i := i + 1;
    }
    if stop1 && stop2 { SearchEnds(f, frontier, 1, lo, limit, i); }
    NothingSlid(f, path.es, frontier, 1);
    if i > 0 && frontier == lo { SlidFar(f, path.es, path.es, frontier, frontier, 1, limit); }
  }

  /** The mirror image of `SearchForward`, from the back. */
  method SearchBackward(
      path: Path, limit: Point, frontier: Point, budget: nat, nx: nat, ny: nat, f: EqualFunc,
      ghost asked: seq<(int, int)>)
    returns (frontier': Point, budget': nat, ghost asked': seq<(int, int)>)
    requires path.dir == -1
    requires 0 <= limit.x < frontier.x <= path.x <= nx && 0 <= limit.y < frontier.y <= path.y <= ny
    requires Covers(f, nx, ny) && InGrid(asked, nx, ny) && path.Traced(f, asked, nx, ny) && path.Settled()
    modifies path
    ensures limit.x <= path.x <= old(path.x) && limit.y <= path.y <= old(path.y)
    ensures asked <= asked' && InGrid(asked', nx, ny) && path.Traced(f, asked', nx, ny) && path.Settled()
    ensures |asked'| + budget' <= |asked| + budget + old(path.x) - path.x + old(path.y) - path.y
    ensures limit.x <= frontier'.x <= path.x && limit.y <= frontier'.y <= path.y
    ensures frontier' == frontier || frontier'.x + frontier'.y <= frontier.x + frontier.y - 2
    ensures if frontier' == frontier then path.x == old(path.x) && path.y == old(path.y) else frontier' == Point(path.x, path.y)
    ensures frontier' == frontier && budget' > 0 ==> NoMatch(f, frontier, -1, limit, Point(path.x, path.y))
    ensures frontier' != frontier && limit.x < path.x && limit.y < path.y ==> !MatchAhead(f, path.At(), -1)
    ensures old(path.es) <= path.es && |asked'| + budget' >= |asked| + budget
    ensures NothingMatches(f, nx, ny) ==> frontier' == frontier && path.es == old(path.es)
    ensures budget > 0 && frontier == old(path.At()) ==>
      Slid(f, old(path.es), path.es, frontier, path.At(), -1, limit) && frontier' == path.At() && budget' + 1 >= budget
  {
    hide Leads, Searching, NoMatch, Slid, StepOk, TurnOk, Reverse, Path.Settled, Path.Traced;
    frontier', budget', asked' := frontier, budget, asked;
    var stop1, stop2, i := false, false, 0;
    ghost var hi := Point(path.x, path.y);
    SearchStarts(f, frontier, -1, limit, hi);
    while !(stop1 && stop2) && budget' > 0
      invariant 0 <= i <= 2 * Width(frontier, -1, limit, hi) + 2
      invariant i == 0 ==> !stop1 && !stop2 && budget' == budget
      invariant path.x == old(path.x) && path.y == old(path.y) && path.es == old(path.es)
      invariant asked <= asked' && InGrid(asked', nx, ny) && path.Traced(f, asked', nx, ny) && path.Settled()
      invariant |asked'| + budget' == |asked| + budget
      invariant Searching(f, frontier, -1, limit, hi, i, stop1, stop2)
      invariant i > 0 && frontier == hi ==> !MatchAhead(f, frontier, -1) && budget' + 1 >= budget
      decreases 2 * Width(frontier, -1, limit, hi) + 2 - i
    {
      var z := Zigzag(i);
      var p := Point(frontier.x - z, frontier.y + z);
      ghost var was1, was2 := stop1, stop2;
      if limit.x >= p.x || path.y < p.y {
        stop1 := true;
      } else if limit.y >= p.y || path.x < p.x {
        stop2 := true;
      } else {
        path.More(f, asked', asked' + [(p.x - 1, p.y - 1)], nx, ny);
        asked' := asked' + [(p.x - 1, p.y - 1)];
        if f(p.x - 1, p.y - 1).Equal() {
          asked' := TakeBackward(path, p, limit, nx, ny, f, asked');
          frontier' := Point(path.x, path.y);
          return;
        } else {
          budget' := budget' - 1;
        }
      }
      SearchMoves(f, frontier, -1, limit, hi, i, was1, was2, Point(p.x - 1, p.y - 1));
      i := i + 1;
    }
    if stop1 && stop2 { SearchEnds(f, frontier, -1, limit, hi, i); }
    NothingSlid(f, path.es, frontier, -1);
    if i > 0 && frontier == hi { SlidFar(f, path.es, path.es, frontier, frontier, -1, limit); }
  }

  // ------------------------------------------------------------- difference

  lemma {:induction false} LeadsFirst(
      f: EqualFunc, asked: seq<(int, int)>, es: EditScript, x0: int, y0: int, x1: int, y1: int, t: EditType)
    requires Leads(f, asked, [t] + es, x0, y0, x1, y1)
    ensures StepOk(f, asked, t, x0, y0)
    ensures es != [] ==> TurnOk(f, asked, t, es[0], x0, y0)
    ensures Leads(f, asked, es, x0 + DX(t), y0 + DY(t), x1, y1)
    decreases |es|
  {
    var last := ([t] + es)[|es|];
    if es == [] {
      assert ([t] + es)[..0] == [];
    } else {
      assert ([t] + es)[..|es|] == [t] + es[..|es| - 1];
      LeadsFirst(f, asked, es[..|es| - 1], x0, y0, x1 - DX(last), y1 - DY(last), t);
    }
  }

  lemma {:induction false} CountIdentity(es: EditScript)
    ensures Dist(es) == 0 <==> RanStraight([], es)
    ensures RanStraight([], es) ==> LenX(es) == |es| == LenY(es)
  {
    if es != [] {
      var init := es[..|es| - 1];
      CountIdentity(init);
      if RanStraight([], init) && es[|init|] == Identity {
        assert forall k | 0 <= k < |es| :: es[k] == if k < |init| then init[k] else es[|init|];
      }
      if RanStraight([], es) {
        assert forall k | 0 <= k < |init| :: init[k] == es[k];
      }
    }
  }

  /** A valid script costs nothing only between lists that agree item by item. */
  lemma {:induction false} FreeScriptMeansEqual(f: EqualFunc, asked: seq<(int, int)>, es: EditScript, nx: nat, ny: nat)
    requires ValidScript(f, asked, es, nx, ny)
    requires Dist(es) == 0
    ensures nx == ny && forall i | 0 <= i < nx :: f.requires(i, i) && f(i, i).Equal()
  {
    CountIdentity(es);
    forall i | 0 <= i < nx
      ensures f.requires(i, i) && f(i, i).Equal()
    {
      CountIdentity(es[..i]);
      assert es[i] == Identity;
      assert StepOk(f, asked, es[i], Cell(es, i).0, Cell(es, i).1);
    }
  }

  /** The two lists are equal item by item. */
  ghost predicate AllEqual(f: EqualFunc, nx: nat, ny: nat)
    requires Covers(f, nx, ny)
  {
    nx == ny && forall i | 0 <= i < nx :: f(i, i).Equal()
  }

  /** What the searches keep of the two paths. */
  ghost predicate Growing(fwdPath: Path, revPath: Path, f: EqualFunc, asked: seq<(int, int)>, nx: nat, ny: nat)
    reads fwdPath, revPath
  {
    && fwdPath.dir == 1
    && revPath.dir == -1
    && fwdPath != revPath
    && 0 <= fwdPath.x <= revPath.x <= nx
    && 0 <= fwdPath.y <= revPath.y <= ny
    && InGrid(asked, nx, ny)
    && fwdPath.Traced(f, asked, 0, 0) && fwdPath.Settled()
    && revPath.Traced(f, asked, nx, ny) && revPath.Settled()
  }

  /** Nothing is known yet: both paths stand at their origins. */
  ghost predicate Untouched(fwdPath: Path, revPath: Path, nx: nat, ny: nat)
    reads fwdPath, revPath
  {
    fwdPath.es == [] == revPath.es && fwdPath.x == fwdPath.y == 0 && revPath.x == nx && revPath.y == ny
  }

  /** The number of list items that the two paths have consumed. */
  ghost function Walked(fwdPath: Path, revPath: Path, nx: nat, ny: nat): int
    reads fwdPath, revPath
  {
    fwdPath.x + fwdPath.y + nx - revPath.x + ny - revPath.y
  }

  /** No match stands in the box before the anti-diagonal of the forward frontier. */
  ghost predicate NoneBefore(f: EqualFunc, lo: Point, hi: Point, frontier: Point) {
    forall x, y :: Inside(Point(x, y), lo, hi) && x + y < frontier.x + frontier.y ==> f.requires(x, y) && !f(x, y).Equal()
  }

  /** No match stands in the box behind the anti-diagonal of the reverse frontier. */
  ghost predicate NoneBehind(f: EqualFunc, lo: Point, hi: Point, frontier: Point) {
    forall x, y :: Inside(Point(x, y), lo, hi) && x + y > frontier.x + frontier.y - 2 ==> f.requires(x, y) && !f(x, y).Equal()
  }

  lemma {:induction false} BoxShrinks(f: EqualFunc, lo: Point, hi: Point, lo': Point, hi': Point, frontier: Point)
    requires lo.x <= lo'.x && lo.y <= lo'.y && hi'.x <= hi.x && hi'.y <= hi.y
    ensures NoneBefore(f, lo, hi, frontier) ==> NoneBefore(f, lo', hi', frontier)
    ensures NoneBehind(f, lo, hi, frontier) ==> NoneBehind(f, lo', hi', frontier)
  {
  }

  lemma {:induction false} NothingSearched(f: EqualFunc, nx: nat, ny: nat)
    ensures NoneBefore(f, Point(0, 0), Point(nx, ny), Point(0, 0)) && NoneBehind(f, Point(0, 0), Point(nx, ny), Point(nx, ny))
  {
  }

  lemma {:induction false} OneMoreBefore(f: EqualFunc, lo: Point, hi: Point, frontier: Point, frontier': Point)
    requires NoneBefore(f, lo, hi, frontier) && NoMatch(f, frontier, 1, lo, hi)
    requires frontier'.x + frontier'.y == frontier.x + frontier.y + 1
    ensures NoneBefore(f, lo, hi, frontier')
  {
    forall x, y | Inside(Point(x, y), lo, hi) && x + y < frontier'.x + frontier'.y
      ensures f.requires(x, y) && !f(x, y).Equal()
    {
      assert x + y == frontier.x + frontier.y ==> Visited(frontier, 1, x - frontier.x) == Point(x, y);
    }
  }

  lemma {:induction false} OneMoreBehind(f: EqualFunc, lo: Point, hi: Point, frontier: Point, frontier': Point)
    requires NoneBehind(f, lo, hi, frontier) && NoMatch(f, frontier, -1, lo, hi)
    requires frontier'.x + frontier'.y == frontier.x + frontier.y - 1
    ensures NoneBehind(f, lo, hi, frontier')
  {
    forall x, y | Inside(Point(x, y), lo, hi) && x + y > frontier'.x + frontier'.y - 2
      ensures f.requires(x, y) && !f(x, y).Equal()
    {
      assert x + y == frontier.x + frontier.y - 2 ==> Visited(frontier, -1, frontier.x - 1 - x) == Point(x, y);
    }
  }

  /** Where a path has just stopped, only the next pair can stand before the frontier, and that is no match. */
  lemma {:induction false} FreshStart(f: EqualFunc, lo: Point, hi: Point, frontier: Point, nx: nat, ny: nat)
    requires Covers(f, nx, ny) && 0 <= lo.x && 0 <= lo.y && hi.x <= nx && hi.y <= ny
    ensures frontier.x + frontier.y == lo.x + lo.y + 1 && (lo.x < hi.x && lo.y < hi.y ==> !MatchAhead(f, lo, 1)) ==>
      NoneBefore(f, lo, hi, frontier)
    ensures frontier.x + frontier.y == hi.x + hi.y - 1 && (lo.x < hi.x && lo.y < hi.y ==> !MatchAhead(f, hi, -1)) ==>
      NoneBehind(f, lo, hi, frontier)
  {
  }

  /**
   * First half of a round: search from the front, then advance the front's frontier towards the back. When the search
   * starts the frontiers are inside the paths and apart; afterwards this frontier is inside unless the paths have met.
   */
  method AdvanceForward(
      fwdPath: Path, revPath: Path, fwdFrontier: Point, ghost revFrontier: Point, budget: nat, nx: nat, ny: nat, f: EqualFunc,
      ghost asked: seq<(int, int)>)
    returns (frontier: Point, budget': nat, ghost asked': seq<(int, int)>)
    requires Covers(f, nx, ny) && Growing(fwdPath, revPath, f, asked, nx, ny)
    requires fwdPath.x <= fwdFrontier.x < revFrontier.x <= revPath.x
    requires fwdPath.y <= fwdFrontier.y < revFrontier.y <= revPath.y
    modifies fwdPath
    ensures Growing(fwdPath, revPath, f, asked', nx, ny)
    ensures old(fwdPath.x) <= fwdPath.x && old(fwdPath.y) <= fwdPath.y && old(fwdPath.es) <= fwdPath.es
    ensures NothingMatches(f, nx, ny) ==> fwdPath.At() == old(fwdPath.At()) && fwdPath.es == old(fwdPath.es)
    ensures fwdPath.x <= frontier.x <= revPath.x + 1 && fwdPath.y <= frontier.y <= revPath.y
    ensures frontier.x <= revPath.x <==> !(fwdPath.x == revPath.x && fwdPath.y == revPath.y)
    ensures frontier.x + frontier.y > fwdFrontier.x + fwdFrontier.y
    ensures |asked'| + budget' - Walked(fwdPath, revPath, nx, ny) <= |asked| + budget - old(Walked(fwdPath, revPath, nx, ny))
    ensures |asked'| + budget' >= |asked| + budget
    ensures budget' > 0 && old(NoneBefore(f, fwdPath.At(), revPath.At(), fwdFrontier)) ==>
      NoneBefore(f, fwdPath.At(), revPath.At(), frontier)
    ensures budget > 0 && fwdFrontier == old(fwdPath.At()) ==>
      && Slid(f, old(fwdPath.es), fwdPath.es, fwdFrontier, fwdPath.At(), 1, revPath.At())
      && budget' + 1 >= budget
      && frontier == (if revPath.x - fwdPath.x >= revPath.y - fwdPath.y then Point(fwdPath.x + 1, fwdPath.y)
                      else Point(fwdPath.x, fwdPath.y + 1))
  {
    hide Leads, Slid, NoMatch, NoneBefore, MatchAhead, NothingMatches;
    frontier, budget', asked' :=
      SearchForward(fwdPath, Point(revPath.x, revPath.y), fwdFrontier, budget, nx, ny, f, asked);
    revPath.More(f, asked, asked', nx, ny);
    ghost var searched := frontier;
    if revPath.x - frontier.x >= revPath.y - frontier.y {
      frontier := Point(frontier.x + 1, frontier.y);
    } else {
      frontier := Point(frontier.x, frontier.y + 1);
    }
    FreshStart(f, fwdPath.At(), revPath.At(), frontier, nx, ny);
    if searched == fwdFrontier && budget' > 0 && old(NoneBefore(f, fwdPath.At(), revPath.At(), fwdFrontier)) {
      OneMoreBefore(f, fwdPath.At(), revPath.At(), fwdFrontier, frontier);
    }
  }

  /** Second half of a round, the other way around. */
  method AdvanceBackward(
      fwdPath: Path, revPath: Path, ghost fwdFrontier: Point, revFrontier: Point, budget: nat, nx: nat, ny: nat, f: EqualFunc,
      ghost asked: seq<(int, int)>)
    returns (frontier: Point, budget': nat, ghost asked': seq<(int, int)>)
    requires Covers(f, nx, ny) && Growing(fwdPath, revPath, f, asked, nx, ny)
    requires fwdPath.x <= fwdFrontier.x < revFrontier.x <= revPath.x
    requires fwdPath.y <= fwdFrontier.y < revFrontier.y <= revPath.y
    modifies revPath
    ensures Growing(fwdPath, revPath, f, asked', nx, ny)
    ensures revPath.x <= old(revPath.x) && revPath.y <= old(revPath.y) && old(revPath.es) <= revPath.es
    ensures NothingMatches(f, nx, ny) ==> revPath.At() == old(revPath.At()) && revPath.es == old(revPath.es)
    ensures fwdPath.x - 1 <= frontier.x <= revPath.x && fwdPath.y <= frontier.y <= revPath.y
    ensures fwdPath.x <= frontier.x <==> !(fwdPath.x == revPath.x && fwdPath.y == revPath.y)
    ensures frontier.x + frontier.y < revFrontier.x + revFrontier.y
    ensures |asked'| + budget' - Walked(fwdPath, revPath, nx, ny) <= |asked| + budget - old(Walked(fwdPath, revPath, nx, ny))
    ensures |asked'| + budget' >= |asked| + budget
    ensures budget' > 0 && old(NoneBehind(f, fwdPath.At(), revPath.At(), revFrontier)) ==>
      NoneBehind(f, fwdPath.At(), revPath.At(), frontier)
    ensures budget > 0 && revFrontier == old(revPath.At()) ==>
      Slid(f, old(revPath.es), revPath.es, revFrontier, revPath.At(), -1, fwdPath.At())
  {
    hide Leads, Slid, NoMatch, NoneBehind, MatchAhead, NothingMatches;
    frontier, budget', asked' :=
      SearchBackward(revPath, Point(fwdPath.x, fwdPath.y), revFrontier, budget, nx, ny, f, asked);
    fwdPath.More(f, asked, asked', 0, 0);
    ghost var searched := frontier;
    if frontier.x - fwdPath.x >= frontier.y - fwdPath.y {
      frontier := Point(frontier.x - 1, frontier.y);
    } else {
      frontier := Point(frontier.x, frontier.y - 1);
    }
    FreshStart(f, fwdPath.At(), revPath.At(), frontier, nx, ny);
    if searched == revFrontier && budget' > 0 && old(NoneBehind(f, fwdPath.At(), revPath.At(), revFrontier)) {
      OneMoreBehind(f, fwdPath.At(), revPath.At(), revFrontier, frontier);
    }
  }

  // ------------------------------------------------- what both lists begin and end with

  /** The first k items are the same in both lists. */
  ghost predicate StartAlike(f: EqualFunc, nx: nat, ny: nat, k: nat) {
    k <= nx && k <= ny && forall i | 0 <= i < k :: MatchAt(f, Point(0, 0), 1, i)
  }

  /** The last k items are the same in both lists, and stand behind items that differ at the same index q. */
  ghost predicate EndAlike(f: EqualFunc, nx: nat, ny: nat, q: nat, k: nat) {
    && q + k <= nx && q + k <= ny && q < nx && q < ny && !MatchAt(f, Point(0, 0), 1, q)
    && forall i | 0 <= i < k :: MatchAt(f, Point(nx, ny), -1, i)
  }

  ghost predicate StartsWithMatches(es: EditScript, k: nat) {
    k <= |es| && forall i | 0 <= i < k :: es[i].Identity?
  }

  ghost predicate EndsWithMatches(es: EditScript, k: nat) {
    k <= |es| && forall i | |es| - k <= i < |es| :: es[i].Identity?
  }

  /** The two paths have taken what both lists begin and end with. */
  ghost predicate EndsTaken(f: EqualFunc, fwd: EditScript, rev: EditScript, nx: nat, ny: nat) {
    && (forall k | StartAlike(f, nx, ny, k) :: StartsWithMatches(fwd, k))
    && (forall q, k | EndAlike(f, nx, ny, q, k) :: StartsWithMatches(rev, k))
  }

  lemma {:induction false} EndsStayTaken(
      f: EqualFunc, fwd: EditScript, rev: EditScript, fwd': EditScript, rev': EditScript, nx: nat, ny: nat)
    requires EndsTaken(f, fwd, rev, nx, ny) && fwd <= fwd' && rev <= rev'
    ensures EndsTaken(f, fwd', rev', nx, ny)
  {
    hide StartAlike, EndAlike;
  }

  lemma {:induction false} StartTaken(f: EqualFunc, fwd: EditScript, at: Point, nx: nat, ny: nat, k: nat)
    requires Slid(f, [], fwd, Point(0, 0), at, 1, Point(nx, ny)) && at.x <= nx && at.y <= ny && StartAlike(f, nx, ny, k)
    ensures StartsWithMatches(fwd, k)
  {
    hide MatchAt;
  }

  lemma {:induction false} EndTaken(
      f: EqualFunc, fwd: EditScript, rev: EditScript, at: Point, end: Point, nx: nat, ny: nat, q: nat, k: nat)
    requires Slid(f, [], fwd, Point(0, 0), at, 1, Point(nx, ny))
    requires Slid(f, [], rev, Point(nx, ny), end, -1, at) && at.x <= end.x && at.y <= end.y
    requires EndAlike(f, nx, ny, q, k)
    ensures StartsWithMatches(rev, k)
  {
    hide MatchAt;
  }

  /** After the first round, or already after its first half if the frontiers are then past each other. */
  lemma {:induction false} FirstRound(
      f: EqualFunc, fwd: EditScript, rev: EditScript, at: Point, end: Point, nx: nat, ny: nat)
    requires Slid(f, [], fwd, Point(0, 0), at, 1, Point(nx, ny)) && at.x <= nx && at.y <= ny
    requires Slid(f, [], rev, Point(nx, ny), end, -1, at) && at.x <= end.x && at.y <= end.y
    ensures EndsTaken(f, fwd, rev, nx, ny)
  {
    hide Slid, StartAlike, EndAlike, StartsWithMatches;
    forall k | StartAlike(f, nx, ny, k) ensures StartsWithMatches(fwd, k) { StartTaken(f, fwd, at, nx, ny, k); }
    forall q, k | EndAlike(f, nx, ny, q, k) ensures StartsWithMatches(rev, k) {
      EndTaken(f, fwd, rev, at, end, nx, ny, q, k);
    }
  }

  lemma {:induction false} HalfRound(f: EqualFunc, fwd: EditScript, at: Point, nx: nat, ny: nat)
    requires Slid(f, [], fwd, Point(0, 0), at, 1, Point(nx, ny)) && at.x <= nx && at.y <= ny
    requires at.x == nx || at.y == ny || (at.x + 1 == nx && at.y + 1 == ny)
    ensures Slid(f, [], [], Point(nx, ny), Point(nx, ny), -1, at)
  {
    if at.x < nx && at.y < ny {
      assert MatchAt(f, Point(0, 0), 1, |fwd|) <==> MatchAt(f, Point(nx, ny), -1, 0);
    }
  }

  lemma {:induction false} NoRound(f: EqualFunc, nx: nat, ny: nat)
    requires Covers(f, nx, ny) && (nx == 0 || ny == 0)
    ensures EndsTaken(f, [], [], nx, ny) && RanStraight([], []) && (AllEqual(f, nx, ny) ==> nx == ny)
  {
  }

  lemma {:induction false} AllTaken(f: EqualFunc, fwd: EditScript, at: Point, nx: nat, ny: nat)
    requires Covers(f, nx, ny) && AllEqual(f, nx, ny)
    requires Slid(f, [], fwd, Point(0, 0), at, 1, Point(nx, ny)) && at.x <= nx && at.y <= ny
    ensures at == Point(nx, ny) && nx == ny && RanStraight([], fwd)
  {
    assert forall i | 0 <= i < nx :: MatchAt(f, Point(0, 0), 1, i);
  }

  /** The alternating searches, until the frontiers meet or the budget is spent. */
  method SearchBoth(fwdPath: Path, revPath: Path, nx: nat, ny: nat, f: EqualFunc)
    returns (ghost asked: seq<(int, int)>, ghost fwdEnd: Point, ghost revEnd: Point)
    requires Covers(f, nx, ny)
    requires Growing(fwdPath, revPath, f, [], nx, ny) && Untouched(fwdPath, revPath, nx, ny)
    modifies fwdPath, revPath
    ensures Growing(fwdPath, revPath, f, asked, nx, ny)
    ensures |asked| <= 4 * (nx + ny) + Walked(fwdPath, revPath, nx, ny)
    ensures AllEqual(f, nx, ny) ==>
      && fwdPath.x == nx == fwdPath.y && RanStraight([], fwdPath.es)
      && revPath.x == nx == revPath.y && revPath.es == []
    ensures EndsTaken(f, fwdPath.es, revPath.es, nx, ny)
    ensures NothingMatches(f, nx, ny) ==> Untouched(fwdPath, revPath, nx, ny)
    ensures |asked| < 4 * (nx + ny) ==>
      && (fwdEnd.x >= revEnd.x || fwdEnd.y >= revEnd.y)
      && NoneBefore(f, fwdPath.At(), revPath.At(), fwdEnd) && NoneBehind(f, fwdPath.At(), revPath.At(), revEnd)
  {
    hide Leads, Slid, EndsTaken, NoneBefore, NoneBehind, NothingMatches, AllEqual, RanStraight, StepOk;
    hide Reverse, Path.Settled, Path.Traced;
    asked := [];
    var fwdFrontier, revFrontier := Point(0, 0), Point(nx, ny);
    var searchBudget: nat := 4 * (nx + ny);
    ghost var started := false;
    assert NoneBefore(f, fwdPath.At(), revPath.At(), fwdFrontier) && NoneBehind(f, fwdPath.At(), revPath.At(), revFrontier) by {
      NothingSearched(f, nx, ny);
    }
    while true
      invariant Growing(fwdPath, revPath, f, asked, nx, ny)
      invariant fwdPath.x <= fwdFrontier.x && fwdPath.y <= fwdFrontier.y
      invariant revFrontier.x <= revPath.x && revFrontier.y <= revPath.y
      invariant 4 * (nx + ny) <= |asked| + searchBudget <= 4 * (nx + ny) + Walked(fwdPath, revPath, nx, ny)
      invariant NothingMatches(f, nx, ny) ==> Untouched(fwdPath, revPath, nx, ny)
      invariant if started then EndsTaken(f, fwdPath.es, revPath.es, nx, ny) && !AllEqual(f, nx, ny)
        else searchBudget == 4 * (nx + ny) && fwdFrontier == Point(0, 0) && revFrontier == Point(nx, ny)
             && Untouched(fwdPath, revPath, nx, ny)
      invariant searchBudget > 0 ==>
        && NoneBefore(f, fwdPath.At(), revPath.At(), fwdFrontier)
        && NoneBehind(f, fwdPath.At(), revPath.At(), revFrontier)
      decreases revFrontier.x + revFrontier.y - fwdFrontier.x - fwdFrontier.y
    {
      if fwdFrontier.x >= revFrontier.x || fwdFrontier.y >= revFrontier.y || searchBudget == 0 {
        if !started { NoRound(f, nx, ny); }
        break;
      }
      ghost var lo, hi, fwdEs, revEs := fwdPath.At(), revPath.At(), fwdPath.es, revPath.es;
      fwdFrontier, searchBudget, asked :=
        AdvanceForward(fwdPath, revPath, fwdFrontier, revFrontier, searchBudget, nx, ny, f, asked);
      BoxShrinks(f, lo, hi, fwdPath.At(), hi, revFrontier);
      if started { EndsStayTaken(f, fwdEs, revEs, fwdPath.es, revEs, nx, ny); }
      if fwdFrontier.x >= revFrontier.x || fwdFrontier.y >= revFrontier.y || searchBudget == 0 {
        if !started {
          HalfRound(f, fwdPath.es, fwdPath.At(), nx, ny);
          FirstRound(f, fwdPath.es, [], fwdPath.At(), hi, nx, ny);
          if AllEqual(f, nx, ny) { AllTaken(f, fwdPath.es, fwdPath.At(), nx, ny); }
        }
        break;
      }
      if !started && AllEqual(f, nx, ny) { AllTaken(f, fwdPath.es, fwdPath.At(), nx, ny); }
      lo := fwdPath.At();
      revFrontier, searchBudget, asked :=
        AdvanceBackward(fwdPath, revPath, fwdFrontier, revFrontier, searchBudget, nx, ny, f, asked);
      BoxShrinks(f, lo, hi, lo, revPath.At(), fwdFrontier);
      if started {
        EndsStayTaken(f, fwdPath.es, revEs, fwdPath.es, revPath.es, nx, ny);
      } else {
        FirstRound(f, fwdPath.es, revPath.es, fwdPath.At(), revPath.At(), nx, ny);
      }
      started := true;
    }
    fwdEnd, revEnd := fwdFrontier, revFrontier;
  }

  /** The script ends with the steps from index i on, last one first. */
  ghost predicate Backwards(es: EditScript, steps: EditScript, i: nat)
    requires i <= |steps|
  {
    |steps| - i <= |es| && forall k | i <= k < |steps| :: steps[k] == es[|es| - 1 - (k - i)]
  }

  lemma {:induction false} BackwardsFromNothing(es: EditScript, steps: EditScript)
    ensures Backwards(es, steps, |steps|)
  {
  }

  lemma {:induction false} BackwardsMore(es: EditScript, steps: EditScript, i: nat)
    requires i < |steps| && Backwards(es, steps, i + 1)
    ensures Backwards(es + [steps[i]], steps, i)
  {
  }

  /** Moves the steps of the reverse path over, last one first. */
  method TakeOver(fwdPath: Path, revPath: Path, nx: nat, ny: nat, ghost f: EqualFunc, ghost asked: seq<(int, int)>)
    requires fwdPath != revPath && fwdPath.dir == 1 && fwdPath.Traced(f, asked, 0, 0)
    requires Leads(f, asked, Reverse(revPath.es), fwdPath.x, fwdPath.y, nx, ny) && revPath.Settled()
    modifies fwdPath, revPath
    ensures Leads(f, asked, fwdPath.es, 0, 0, nx, ny)
    ensures old(fwdPath.es) <= fwdPath.es && |fwdPath.es| == |old(fwdPath.es)| + |old(revPath.es)|
    ensures Backwards(fwdPath.es, old(revPath.es), 0)
  {
    hide Leads, StepOk, Backwards;
    ghost var steps := revPath.es;
    BackwardsFromNothing(fwdPath.es, steps);
    for i := |revPath.es| downto 0
      invariant |revPath.es| == i && revPath.es == steps[..i]
      invariant fwdPath.Traced(f, asked, 0, 0)
      invariant Leads(f, asked, Reverse(revPath.es), fwdPath.x, fwdPath.y, nx, ny)
      invariant i > 0 ==> fwdPath.MayTurn(f, asked, revPath.es[i - 1])
      invariant old(fwdPath.es) <= fwdPath.es && |fwdPath.es| == |old(fwdPath.es)| + |steps| - i
      invariant Backwards(fwdPath.es, steps, i)
    {
      var t := revPath.es[i];
      LeadsFirst(f, asked, Reverse(revPath.es[..i]), fwdPath.x, fwdPath.y, nx, ny, t);
      ReverseEnds(revPath.es[..i]);
      revPath.es := revPath.es[..i];
      BackwardsMore(fwdPath.es, steps, i);
      fwdPath.Step(t, f, asked, 0, 0);
    }
    LeadsNowhere(f, asked, fwdPath.x, fwdPath.y, nx, ny);
  }

  /** Joins the two paths: what lies between them is closed from the front. */
  method Join(fwdPath: Path, revPath: Path, nx: nat, ny: nat, f: EqualFunc, ghost asked: seq<(int, int)>)
    returns (ghost asked': seq<(int, int)>)
    requires fwdPath != revPath && fwdPath.dir == 1 && revPath.dir == -1
    requires 0 <= fwdPath.x <= revPath.x <= nx && 0 <= fwdPath.y <= revPath.y <= ny
    requires Covers(f, nx, ny) && InGrid(asked, nx, ny)
    requires fwdPath.Traced(f, asked, 0, 0) && fwdPath.Settled()
    requires revPath.Traced(f, asked, nx, ny) && revPath.Settled()
    modifies fwdPath, revPath
    ensures asked <= asked' && InGrid(asked', nx, ny)
    ensures Leads(f, asked', fwdPath.es, 0, 0, nx, ny)
    ensures |asked'| <= |asked| + old(revPath.x - fwdPath.x + revPath.y - fwdPath.y)
    ensures old(fwdPath.es) <= fwdPath.es && Backwards(fwdPath.es, old(revPath.es), 0)
    ensures old(revPath.es == [] && revPath.At() == fwdPath.At()) ==> fwdPath.es == old(fwdPath.es)
    ensures old(revPath.es == [] && revPath.At() == Point(nx, ny)) ==>
      ClosesGap(f, 1, fwdPath.es[|old(fwdPath.es)|..], old(fwdPath.At()), Point(nx, ny), Point(nx, ny))
  {
    hide Leads, StepOk, Reverse, Backwards, ClosesGap;
    asked' := fwdPath.Connect(Point(revPath.x, revPath.y), nx, ny, f, asked, 0, 0);
    ghost var connected := fwdPath.es;
    LeadsMore(f, asked, asked', Reverse(revPath.es), revPath.x, revPath.y, nx, ny);
    TakeOver(fwdPath, revPath, nx, ny, f, asked');
    assert old(revPath.es) == [] ==> fwdPath.es == connected;
  }

  /**
   * What both lists begin and end with is left alone: the script begins with as many matches as the lists do, and ends with
   * as many as they have in common behind the first items that differ.
   */
  ghost predicate KeepsEnds(f: EqualFunc, es: EditScript, nx: nat, ny: nat) {
    && (forall k | StartAlike(f, nx, ny, k) :: StartsWithMatches(es, k))
    && (forall q, k | EndAlike(f, nx, ny, q, k) :: EndsWithMatches(es, k))
  }

  lemma {:induction false} EndsKept(f: EqualFunc, es: EditScript, fwd: EditScript, rev: EditScript, nx: nat, ny: nat)
    requires EndsTaken(f, fwd, rev, nx, ny) && fwd <= es && Backwards(es, rev, 0)
    ensures KeepsEnds(f, es, nx, ny)
  {
    hide StartAlike, EndAlike;
    forall q: nat, k: nat | EndAlike(f, nx, ny, q, k) ensures EndsWithMatches(es, k) {
      assert StartsWithMatches(rev, k);
      forall i | |es| - k <= i < |es| ensures es[i].Identity? { assert es[i] == rev[|es| - 1 - i]; }
    }
  }

  method Difference(nx: nat, ny: nat, f: EqualFunc) returns (es: EditScript, ghost asked: seq<(int, int)>)
    requires Covers(f, nx, ny)
    ensures ValidScript(f, asked, es, nx, ny)
    ensures KeepsEnds(f, es, nx, ny)
    ensures NothingMatches(f, nx, ny) ==> ClosesGap(f, 1, es, Point(0, 0), Point(nx, ny), Point(nx, ny))
    ensures Dist(es) == 0 <==> AllEqual(f, nx, ny)
    ensures InGrid(asked, nx, ny)
    ensures |asked| <= 5 * (nx + ny)
  {
    hide KeepsEnds, EndsTaken, Backwards, ClosesGap, NothingMatches;
    var fwdPath := new Path(1, 0, 0);
    var revPath := new Path(-1, nx, ny);
    ghost var fwdEnd, revEnd;
    asked, fwdEnd, revEnd := SearchBoth(fwdPath, revPath, nx, ny, f);
    ghost var fwd, rev := fwdPath.es, revPath.es;
    asked := Join(fwdPath, revPath, nx, ny, f, asked);
    es := fwdPath.es;
    EndsKept(f, es, fwd, rev, nx, ny);
    LeadsIsValid(f, asked, es, nx, ny);
    CountIdentity(es);
    if Dist(es) == 0 {
      FreeScriptMeansEqual(f, asked, es, nx, ny);
    }
  }
}
