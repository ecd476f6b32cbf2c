/**
 * Model of rewrite (internal/pgo/augment/rewrite.go) and posAdjuster (internal/pgo/parse.go): patch source is turned
 * into valid Go by inserting text, and positions in the result are mapped back.
 */
module Augment {
  import Sorting

  const FAKE_PACKAGE := "package _"
  const FAKE_FUNC := "func _() "

  datatype Augmentation =
    | FakePackage(at: nat)
    | FakeFunc(at: nat, braces: bool)
    | Dots(dotsStart: nat, dotsEnd: nat, named: bool)
  {
    function Start(): nat {
      if Dots? then dotsStart else at
    }

    function End(): nat {
      if Dots? then dotsEnd else at
    }

    /** What is written in place of the source between Start and End. */
    function Written(): string {
      match this
      case FakePackage(_) => FAKE_PACKAGE + "\n"
      case FakeFunc(_, braces) => FAKE_FUNC + if braces then "{\n" else ""
      case Dots(_, _, named) => if named then "_ d" else "dts"
    }

    /** The number of bytes by which the source grows. */
    function Growth(): nat {
      if Dots? then 0 else |Written()|
    }

    /** The same augmentation at another offset; only `...` has an extent. */
    function MovedTo(offset: nat): Augmentation {
      match this
      case FakePackage(_) => FakePackage(offset)
      case FakeFunc(_, braces) => FakeFunc(offset, braces)
      case Dots(_, _, named) => Dots(offset, offset + 3, named)
    }
  }

  /** An augmentation that `Rewrite` updates in place. */
  class Cell {
    var aug: Augmentation

    constructor (aug: Augmentation)
      ensures this.aug == aug
    {
      this.aug := aug;
    }
  }

  datatype PosAdjustment = PosAdjustment(offset: nat, reduceBy: nat)

  // --------------------------------------------------------------------- order

  /** Augmentations that can be written one after the other: in order, disjoint, inside the source. */
  ghost predicate Ordered(size: nat, augs: seq<Augmentation>) {
    && (forall i | 0 <= i < |augs| :: Fitting(size, augs[i]))
    && forall i, j | 0 <= i < j < |augs| :: augs[i].End() <= augs[j].Start()
  }

  /** The augmentation lies inside the source; a `...` is three bytes long. */
  predicate Fitting(size: nat, a: Augmentation) {
    a.End() <= size && (a.Dots? ==> a.dotsEnd == a.dotsStart + 3)
  }

  lemma {:induction false} Start(src: string, augs: seq<Augmentation>)
    ensures Ordered(|src|, augs[..0]) && Output(src, augs[..0]) == "" == Tail(augs[..0])
    ensures Adjustments(augs[..0]) == [] && Done(augs[..0]) == 0 == Growth(augs[..0])
  {
  }

  /** b may follow a in the list that is to be sorted by start offset, ties keeping their order. */
  predicate Apart(a: Augmentation, b: Augmentation) {
    if a.Start() <= b.Start() then a.End() <= b.Start() else b.End() <= a.Start()
  }

  /** No two augmentations overlap. */
  ghost predicate Disjoint(augs: seq<Augmentation>) {
    forall i, j | 0 <= i < |augs| && 0 <= j < |augs| && i != j ::
      augs[i].End() <= augs[j].Start() || augs[j].End() <= augs[i].Start()
  }

  /**
   * Any order by start offset, with ties in whatever order a sort leaves them, is a writing order if and only if no `...`
   * stands before an augmentation at the same offset.
   */
  lemma {:induction false} SortedIsOrdered(size: nat, augs: seq<Augmentation>)
    requires (forall i | 0 <= i < |augs| :: Fitting(size, augs[i])) && Disjoint(augs)
    requires forall i, j | 0 <= i < j < |augs| :: augs[i].Start() <= augs[j].Start()
    ensures Ordered(size, augs) <==>
      forall i, j | 0 <= i < j < |augs| && augs[i].Start() == augs[j].Start() :: !augs[i].Dots?
  {
    if forall i, j | 0 <= i < j < |augs| && augs[i].Start() == augs[j].Start() :: !augs[i].Dots? {
      forall i, j | 0 <= i < j < |augs| ensures augs[i].End() <= augs[j].Start() {
        assert augs[i].End() <= augs[j].Start() || augs[j].End() <= augs[i].Start();
      }
    }
    if Ordered(size, augs) {
      forall i, j | 0 <= i < j < |augs| && augs[i].Start() == augs[j].Start() ensures !augs[i].Dots? {
        assert augs[i].End() <= augs[j].Start();
      }
    }
  }

  function Augs(cells: seq<Cell>): (r: seq<Augmentation>)
    reads cells
    ensures |r| == |cells|
  {
    seq(|cells|, i requires 0 <= i < |cells| reads cells => cells[i].aug)
  }

  lemma {:induction false} AugsInserted(sorted: seq<Cell>, c: Cell, k: nat)
    requires k <= |sorted|
    ensures Augs(sorted[..k] + [c] + sorted[k..]) == Augs(sorted)[..k] + [c.aug] + Augs(sorted)[k..]
  {
  }

  lemma {:induction false} InsertKeepsOrder(size: nat, augs: seq<Augmentation>, a: Augmentation, k: nat)
    requires Ordered(size, augs) && Fitting(size, a) && k <= |augs|
    requires forall x | x in augs :: Apart(x, a)
    requires k > 0 ==> augs[k - 1].Start() <= a.Start()
    requires forall x | x in augs[k..] :: x.Start() > a.Start()
    ensures Ordered(size, augs[..k] + [a] + augs[k..])
  {
    forall j | 0 <= j < |augs| ensures if j < k then augs[j].End() <= a.Start() else a.End() <= augs[j].Start() {
      assert augs[j] in augs;
      assert j >= k ==> augs[j] in augs[k..];
    }
  }

  /** Inserts an augmentation behind those that do not start later. */
  method InsertByStart(size: nat, sorted: seq<Cell>, c: Cell) returns (r: seq<Cell>)
    requires Ordered(size, Augs(sorted)) && Fitting(size, c.aug) && forall a | a in Augs(sorted) :: Apart(a, c.aug)
    ensures multiset(r) == multiset(sorted) + multiset{c} && Ordered(size, Augs(r))
  {
    hide Ordered, Fitting, Apart;
    var k: nat := |sorted|;
    while k > 0 && sorted[k - 1].aug.Start() > c.aug.Start()
      invariant k <= |sorted|
      invariant forall a | a in Augs(sorted)[k..] :: a.Start() > c.aug.Start()
    {
      k := k - 1;
    }
    InsertKeepsOrder(size, Augs(sorted), c.aug, k);
    AugsInserted(sorted, c, k);
    r := sorted[..k] + [c] + sorted[k..];
    assert sorted == sorted[..k] + sorted[k..];
  }

  lemma {:induction false} EarlierAreApart(cells: seq<Cell>, i: nat, sorted: seq<Cell>)
    requires i < |cells| && multiset(sorted) == multiset(cells[..i])
    requires forall i, j | 0 <= i < j < |cells| :: Apart(cells[i].aug, cells[j].aug)
    ensures forall a | a in Augs(sorted) :: Apart(a, cells[i].aug)
  {
    forall m | 0 <= m < |sorted| ensures Apart(sorted[m].aug, cells[i].aug) {
      assert sorted[m] in multiset(cells[..i]);
      assert sorted[m] in cells[..i];
    }
  }

  lemma {:induction false} NothingIsOrdered(size: nat, augs: seq<Augmentation>)
    requires augs == []
    ensures Ordered(size, augs)
  {
  }

  /** A stable sort by start offset puts disjoint augmentations in writing order. */
  method SortByStart(size: nat, cells: seq<Cell>) returns (sorted: seq<Cell>)
    requires forall i | 0 <= i < |cells| :: Fitting(size, cells[i].aug)
    requires forall i, j | 0 <= i < j < |cells| :: Apart(cells[i].aug, cells[j].aug)
    ensures multiset(sorted) == multiset(cells) && Ordered(size, Augs(sorted))
  {
    hide Ordered, Fitting, Apart, Augs;
    sorted := [];
    assert Ordered(size, Augs(sorted)) by { NothingIsOrdered(size, Augs(sorted)); }
    for i := 0 to |cells|
      invariant multiset(sorted) == multiset(cells[..i])
      invariant Ordered(size, Augs(sorted))
    {
      EarlierAreApart(cells, i, sorted);
      assert cells[..i + 1] == cells[..i] + [cells[i]];
      sorted := InsertByStart(size, sorted, cells[i]);
    }
    assert cells[..|cells|] == cells;
  }

  // ------------------------------------------------------------- the rewritten source

  /** The source is written up to here. */
  function Done(augs: seq<Augmentation>): nat {
    if augs == [] then 0 else augs[|augs| - 1].End()
  }

  function Growth(augs: seq<Augmentation>): nat {
    if augs == [] then 0 else Growth(augs[..|augs| - 1]) + augs[|augs| - 1].Growth()
  }

  /** By how much the byte at offset b moves: the text inserted at or before it. */
  function Shift(augs: seq<Augmentation>, b: nat): nat {
    if augs == [] then 0
    else
      var last := augs[|augs| - 1];
      Shift(augs[..|augs| - 1], b) + if last.Start() <= b then last.Growth() else 0
  }

  function Output(src: string, augs: seq<Augmentation>): string
    requires Ordered(|src|, augs)
  {
    if augs == [] then ""
    else
      var init, last := augs[..|augs| - 1], augs[|augs| - 1];
      DoneBefore(|src|, augs);
      Output(src, init) + src[Done(init)..last.Start()] + last.Written()
  }

  lemma {:induction false} DoneBefore(size: nat, augs: seq<Augmentation>)
    requires Ordered(size, augs) && augs != []
    ensures Ordered(size, augs[..|augs| - 1])
    ensures Done(augs[..|augs| - 1]) <= augs[|augs| - 1].Start() <= augs[|augs| - 1].End() <= size
  {
  }

  /** Braces that are opened are closed at the end. */
  function Tail(augs: seq<Augmentation>): string {
    if augs == [] then ""
    else
      var last := augs[|augs| - 1];
      Tail(augs[..|augs| - 1]) + if last.FakeFunc? && last.braces then "}\n" else ""
  }

  lemma {:induction false} DoneInside(size: nat, augs: seq<Augmentation>)
    requires Ordered(size, augs)
    ensures Done(augs) <= size
  {
  }

  function Rewritten(src: string, augs: seq<Augmentation>): string
    requires Ordered(|src|, augs)
  {
    DoneInside(|src|, augs);
    Output(src, augs) + src[Done(augs)..] + Tail(augs)
  }

  /** One entry for each insertion: where it starts in the new source, and how much was inserted so far. */
  function Adjustments(augs: seq<Augmentation>): seq<PosAdjustment> {
    if augs == [] then []
    else
      var init, last := augs[..|augs| - 1], augs[|augs| - 1];
      Adjustments(init) + if last.Dots? then [] else [PosAdjustment(last.Start() + Growth(init), Growth(augs))]
  }

  lemma {:induction false} OutputLength(src: string, augs: seq<Augmentation>)
    requires Ordered(|src|, augs)
    ensures Done(augs) <= |src| && |Output(src, augs)| == Done(augs) + Growth(augs)
    decreases |augs|
  {
    if augs != [] {
      DoneBefore(|src|, augs);
      OutputLength(src, augs[..|augs| - 1]);
    }
  }

  lemma {:induction false} StepLists(augs: seq<Augmentation>, i: nat)
    requires i < |augs|
    ensures var (init, a) := (augs[..i], augs[i]);
      && Tail(augs[..i + 1]) == (if a.FakeFunc? && a.braces then Tail(init) + "}\n" else Tail(init))
      && Growth(augs[..i + 1]) == Growth(init) + (if a.Dots? then 0 else |a.Written()|)
      && Adjustments(augs[..i + 1]) ==
         (if a.Dots? then Adjustments(init) else Adjustments(init) + [PosAdjustment(a.Start() + Growth(init), Growth(augs[..i + 1]))])
  {
    hide Augmentation.Written;
    assert augs[..i + 1][..i] == augs[..i];
  }

  lemma {:induction false} StepOutput(src: string, augs: seq<Augmentation>, i: nat)
    requires i < |augs| && Ordered(|src|, augs[..i]) && Ordered(|src|, augs[..i + 1])
    requires Done(augs[..i]) <= augs[i].Start() <= |src|
    ensures var (init, a) := (augs[..i], augs[i]);
      && |Output(src, init)| == Done(init) + Growth(init)
      && |Output(src, init) + src[Done(init)..a.Start()]| == a.Start() + Growth(init)
      && Output(src, augs[..i + 1]) == Output(src, init) + src[Done(init)..a.Start()] + a.Written()
  {
    hide Ordered, Growth, Augmentation.Written;
    assert augs[..i + 1][..i] == augs[..i];
    OutputLength(src, augs[..i]);
  }

  lemma {:induction false} PrefixOrdered(size: nat, augs: seq<Augmentation>, i: nat)
    requires Ordered(size, augs) && i < |augs|
    ensures Ordered(size, augs[..i]) && Ordered(size, augs[..i + 1])
  {
  }

  /** The definitions at augmentation i. */
  lemma {:induction false} Step(src: string, augs: seq<Augmentation>, i: nat)
    requires Ordered(|src|, augs) && i < |augs|
    ensures Ordered(|src|, augs[..i]) && Ordered(|src|, augs[..i + 1])
    ensures var (init, a) := (augs[..i], augs[i]);
      && Done(init) <= a.Start() <= a.End() <= |src| && Done(augs[..i + 1]) == a.End()
      && |Output(src, init)| == Done(init) + Growth(init)
      && |Output(src, init) + src[Done(init)..a.Start()]| == a.Start() + Growth(init)
      && Output(src, augs[..i + 1]) == Output(src, init) + src[Done(init)..a.Start()] + a.Written()
      && Tail(augs[..i + 1]) == (if a.FakeFunc? && a.braces then Tail(init) + "}\n" else Tail(init))
      && Growth(augs[..i + 1]) == Growth(init) + (if a.Dots? then 0 else |a.Written()|)
      && a.MovedTo(a.Start() + Growth(init)).Start() == a.Start() + Growth(init)
      && Adjustments(augs[..i + 1]) ==
         (if a.Dots? then Adjustments(init) else Adjustments(init) + [PosAdjustment(a.Start() + Growth(init), Growth(augs[..i + 1]))])
  {
    hide Ordered, Output, Adjustments, Growth, Tail, Augmentation.Written, Shift;
    assert augs[..i + 1][..i] == augs[..i];
    PrefixOrdered(|src|, augs, i);
    DoneBefore(|src|, augs[..i + 1]);
    StepOutput(src, augs, i);
    StepLists(augs, i);
  }

  /** The rest of the source and the closing braces follow. */
  lemma {:induction false} Finish(src: string, augs: seq<Augmentation>, dst: string, tail: string, pos: nat)
    requires Ordered(|src|, augs) && dst == Output(src, augs[..|augs|]) && tail == Tail(augs[..|augs|]) && pos == Done(augs[..|augs|])
    ensures augs[..|augs|] == augs && pos <= |src| && Rewritten(src, augs) == dst + src[pos..] + tail
  {
    assert augs[..|augs|] == augs;
    DoneInside(|src|, augs);
  }

  // ------------------------------------------------------------- what stands in the new source

  /** The text of an augmentation stands where its offset in the new source says. */
  ghost predicate StandsIn(dst: string, a: Augmentation) {
    a.Start() <= |dst| &&
    var rest := dst[a.Start()..];
    match a
    case FakePackage(_) => "package _\n" <= rest
    case FakeFunc(_, braces) => if braces then "func _() {\n" <= rest else "func _() " <= rest
    case Dots(start, end, named) => end == start + 3 && if named then "_ d" <= rest else "dts" <= rest
  }

  /** An augmentation keeps its kind when it is moved, and its extent. */
  ghost predicate SameKind(a: Augmentation, b: Augmentation) {
    match a
    case FakePackage(_) => b.FakePackage?
    case FakeFunc(_, braces) => b.FakeFunc? && (b.braces <==> braces)
    case Dots(start, end, named) => b.Dots? && (b.named <==> named) && b.dotsEnd - b.dotsStart == end - start
  }

  /** The number of braces that fake functions open. */
  function Opened(augs: seq<Augmentation>): nat {
    if augs == [] then 0 else (if augs[0].FakeFunc? && augs[0].braces then 1 else 0) + Opened(augs[1..])
  }

  /** n closing braces, each on a line of its own. */
  function Closing(n: nat): string {
    if n == 0 then "" else "}\n" + Closing(n - 1)
  }

  lemma {:induction false} OpenedByLast(augs: seq<Augmentation>)
    requires augs != []
    ensures var last := augs[|augs| - 1];
      Opened(augs) == Opened(augs[..|augs| - 1]) + if last.FakeFunc? && last.braces then 1 else 0
    decreases |augs|
  {
    if |augs| > 1 {
      OpenedByLast(augs[1..]);
      assert augs[1..][..|augs| - 2] == augs[..|augs| - 1][1..];
    }
  }

  lemma {:induction false} ClosingEnds(n: nat)
    ensures Closing(n + 1) == Closing(n) + "}\n"
  {
    if n > 0 {
      ClosingEnds(n - 1);
      assert "}\n" + (Closing(n - 1) + "}\n") == ("}\n" + Closing(n - 1)) + "}\n";
    }
  }

  lemma {:induction false} TailCloses(augs: seq<Augmentation>)
    ensures Tail(augs) == Closing(Opened(augs))
    decreases |augs|
  {
    if augs != [] {
      TailCloses(augs[..|augs| - 1]);
      OpenedByLast(augs);
      ClosingEnds(Opened(augs[..|augs| - 1]));
    }
  }

  /** Behind the last byte of the source, every brace that was opened is closed, and nothing else follows. */
  lemma {:induction false} BracesAreClosed(src: string, augs: seq<Augmentation>)
    requires Ordered(|src|, augs)
    ensures |src| + Growth(augs) <= |Rewritten(src, augs)|
    ensures Rewritten(src, augs)[|src| + Growth(augs)..] == Closing(Opened(augs))
  {
    TailCloses(augs);
    OutputLength(src, augs);
    var front := Output(src, augs) + src[Done(augs)..];
    assert Rewritten(src, augs) == front + Tail(augs) && |front| == |src| + Growth(augs);
  }

  lemma {:induction false} OutputGrows(src: string, augs: seq<Augmentation>, k: nat)
    requires Ordered(|src|, augs) && k <= |augs|
    ensures Ordered(|src|, augs[..k]) && Output(src, augs[..k]) <= Output(src, augs)
    decreases |augs|
  {
    if k < |augs| {
      var init := augs[..|augs| - 1];
      DoneBefore(|src|, augs);
      OutputGrows(src, init, k);
      assert init[..k] == augs[..k];
    } else {
      assert augs[..k] == augs;
    }
  }

  lemma {:induction false} RewrittenExtends(src: string, augs: seq<Augmentation>, k: nat)
    requires Ordered(|src|, augs) && k <= |augs|
    ensures Ordered(|src|, augs[..k]) && Output(src, augs[..k]) <= Rewritten(src, augs)
  {
    OutputGrows(src, augs, k);
    DoneInside(|src|, augs);
  }

  lemma {:induction false} EndOfPrefix(before: string, last: string, all: string)
    requires before + last <= all
    ensures all[|before|..|before| + |last|] == last
  {
    assert all[..|before| + |last|] == before + last;
  }

  lemma {:induction false} IsPrefix(s: string, dst: string, start: nat)
    requires start + |s| <= |dst| && dst[start..start + |s|] == s
    ensures s <= dst[start..]
  {
    assert dst[start..][..|s|] == s;
  }

  lemma {:induction false} WrittenStands(dst: string, a: Augmentation, start: nat)
    requires start + |a.Written()| <= |dst| && dst[start..start + |a.Written()|] == a.Written()
    requires a.Dots? ==> a.dotsEnd == a.dotsStart + 3
    ensures StandsIn(dst, a.MovedTo(start)) && SameKind(a, a.MovedTo(start))
  {
    IsPrefix(a.Written(), dst, start);
    match a
    case FakePackage(_) => assert a.Written() == "package _\n";
    case FakeFunc(_, braces) => assert a.Written() == if braces then "func _() {\n" else "func _() ";
    case Dots(_, _, _) =>
  }

  lemma {:induction false} WrittenAt(src: string, augs: seq<Augmentation>, k: nat)
    requires Ordered(|src|, augs) && k < |augs|
    ensures var (start, w, dst) := (augs[k].Start() + Growth(augs[..k]), augs[k].Written(), Rewritten(src, augs));
      start + |w| <= |dst| && dst[start..start + |w|] == w
  {
    hide Output, Rewritten, Tail, Adjustments, Growth, Augmentation.Written;
    Step(src, augs, k);
    RewrittenExtends(src, augs, k + 1);
    var before := Output(src, augs[..k]) + src[Done(augs[..k])..augs[k].Start()];
    EndOfPrefix(before, augs[k].Written(), Rewritten(src, augs));
  }

  /** Each augmentation stands in the new source at its new offset. */
  lemma {:induction false} AugmentationsStand(src: string, augs: seq<Augmentation>, k: nat)
    requires Ordered(|src|, augs) && k < |augs|
    ensures var a := augs[k].MovedTo(augs[k].Start() + Growth(augs[..k]));
      StandsIn(Rewritten(src, augs), a) && SameKind(augs[k], a)
  {
    hide Rewritten, Growth, StandsIn, SameKind, Augmentation.Written;
    WrittenAt(src, augs, k);
    assert augs[k].Dots? ==> augs[k].dotsEnd == augs[k].dotsStart + 3;
    WrittenStands(Rewritten(src, augs), augs[k], augs[k].Start() + Growth(augs[..k]));
  }

  /**
   * The rewriting loop. Augmentations end up with their offsets in the new source, `...`s still three bytes long; the
   * adjustments record every insertion.
   */
  method Rewrite(src: string, cells: seq<Cell>) returns (dst: string, adjustments: seq<PosAdjustment>)
    requires forall i, j | 0 <= i < j < |cells| :: cells[i] != cells[j]
    requires Ordered(|src|, Augs(cells))
    modifies cells
    ensures dst == Rewritten(src, old(Augs(cells)))
    ensures adjustments == Adjustments(old(Augs(cells)))
    ensures forall k | 0 <= k < |cells| ::
      && cells[k].aug == old(cells[k].aug).MovedTo(old(cells[k].aug).Start() + Growth(old(Augs(cells))[..k]))
      && StandsIn(dst, cells[k].aug) && SameKind(old(cells[k].aug), cells[k].aug)
    ensures |src| + Growth(old(Augs(cells))) <= |dst|
    ensures dst[|src| + Growth(old(Augs(cells)))..] == Closing(Opened(old(Augs(cells))))
  {
    hide Ordered, Output, Adjustments, Growth, Done, Tail, Augmentation.Written, Augmentation.MovedTo, Augmentation.Start, Augmentation.End;
    hide StandsIn, SameKind, Opened, Closing, Rewritten;
    ghost var augs := Augs(cells);
    var pos, reduceBy, tail := 0, 0, "";
    dst, adjustments := "", [];
    Start(src, augs);
    assert forall k | 0 <= k < |cells| :: cells[k].aug == augs[k];
    hide Augs;
    for i := 0 to |cells|
      invariant Ordered(|src|, augs[..i])
      invariant dst == Output(src, augs[..i]) && tail == Tail(augs[..i]) && adjustments == Adjustments(augs[..i])
      invariant pos == Done(augs[..i]) && reduceBy == Growth(augs[..i])
      invariant forall k | 0 <= k < i :: cells[k].aug == augs[k].MovedTo(augs[k].Start() + Growth(augs[..k]))
      invariant forall k | i <= k < |cells| :: cells[k].aug == augs[k]
    {
      Step(src, augs, i);
      var aug := cells[i].aug;
      var start, end := aug.Start(), aug.End();
      dst := dst + src[pos..start];
      cells[i].aug := aug.MovedTo(|dst|);
      dst := dst + aug.Written();
      if !aug.Dots? {
        reduceBy := reduceBy + |dst| - cells[i].aug.Start();
        adjustments := adjustments + [PosAdjustment(cells[i].aug.Start(), reduceBy)];
      }
      if aug.FakeFunc? && aug.braces {
        tail := tail + "}\n";
      }
      pos := end;
    }
    Finish(src, augs, dst, tail, pos);
    dst := dst + src[pos..] + tail;
    BracesAreClosed(src, augs);
    forall k | 0 <= k < |cells| ensures StandsIn(dst, cells[k].aug) && SameKind(augs[k], cells[k].aug) {
      AugmentationsStand(src, augs, k);
    }
  }

  // ------------------------------------------------------------------ and back

  /** Where the byte at offset b goes. */
  function NewOffset(augs: seq<Augmentation>, b: nat): nat {
    b + Shift(augs, b)
  }

  /** No `...` covers the byte at offset b. */
  ghost predicate Outside(augs: seq<Augmentation>, b: nat) {
    forall i | 0 <= i < |augs| :: augs[i].Dots? ==> !(augs[i].Start() <= b < augs[i].End())
  }

  lemma {:induction false} ShiftBehind(size: nat, augs: seq<Augmentation>, b: nat)
    requires Ordered(size, augs) && Done(augs) <= b
    ensures Shift(augs, b) == Growth(augs)
    decreases |augs|
  {
    if augs != [] {
      DoneBefore(size, augs);
      ShiftBehind(size, augs[..|augs| - 1], b);
    }
  }

  lemma {:induction false} InThree(x: string, y: string, z: string, i: nat)
    requires i < |x| + |y|
    ensures (x + y + z)[i] == if i < |x| then x[i] else y[i - |x|]
  {
  }

  lemma {:induction false} ByteIsOutside(augs: seq<Augmentation>, b: nat)
    requires augs != [] && b < Done(augs) && Outside(augs, b)
    ensures Outside(augs[..|augs| - 1], b) && b < augs[|augs| - 1].Start()
  {
  }

  lemma {:induction false} OutputKeepsBytes(src: string, augs: seq<Augmentation>, b: nat)
    requires Ordered(|src|, augs) && b < Done(augs) && Outside(augs, b)
    ensures NewOffset(augs, b) < |Output(src, augs)| && Done(augs) <= |src| && Output(src, augs)[NewOffset(augs, b)] == src[b]
    decreases |augs|
  {
    var init, last := augs[..|augs| - 1], augs[|augs| - 1];
    DoneBefore(|src|, augs);
    OutputLength(src, init);
    OutputLength(src, augs);
    var out, copied := Output(src, init), src[Done(init)..last.Start()];
    assert Output(src, augs) == out + copied + last.Written();
    ByteIsOutside(augs, b);
    hide Output, Augmentation.Written, Ordered, Growth, Outside;
    if b < Done(init) {
      OutputKeepsBytes(src, init, b);
      assert NewOffset(augs, b) == NewOffset(init, b) < |out|;
    } else {
      ShiftBehind(|src|, init, b);
      assert NewOffset(augs, b) == |out| + (b - Done(init)) && copied[b - Done(init)] == src[b];
    }
    InThree(out, copied, last.Written(), NewOffset(augs, b));
  }

  /** Every byte of the source that no `...` covers is found in the new source, moved by what was inserted before it. */
  lemma {:induction false} BytesAreKept(src: string, augs: seq<Augmentation>, b: nat)
    requires Ordered(|src|, augs) && b < |src| && Outside(augs, b)
    ensures NewOffset(augs, b) < |Rewritten(src, augs)| && Rewritten(src, augs)[NewOffset(augs, b)] == src[b]
  {
    DoneInside(|src|, augs);
    OutputLength(src, augs);
    if b < Done(augs) {
      OutputKeepsBytes(src, augs, b);
    } else {
      ShiftBehind(|src|, augs, b);
    }
  }

  lemma {:induction false} ShiftOfPrefix(size: nat, augs: seq<Augmentation>, k: nat)
    requires Ordered(size, augs) && k < |augs| && augs[k].Dots?
    ensures Shift(augs, augs[k].Start()) == Growth(augs[..k])
    decreases |augs|
  {
    var init := augs[..|augs| - 1];
    DoneBefore(size, augs);
    if k < |init| {
      ShiftOfPrefix(size, init, k);
      assert init[..k] == augs[..k];
    } else {
      ShiftBehind(size, init, augs[k].Start());
    }
  }

  /** A `...` ends up, as an identifier of the same length, where the byte at its start would go. */
  lemma {:induction false} DotsAreReplaced(src: string, augs: seq<Augmentation>, k: nat)
    requires Ordered(|src|, augs) && k < |augs| && augs[k].Dots?
    ensures var start := augs[k].Start() + Growth(augs[..k]);
      && start == NewOffset(augs, augs[k].Start())
      && start + 3 <= |Rewritten(src, augs)| && Rewritten(src, augs)[start..start + 3] == augs[k].Written()
      && |augs[k].Written()| == augs[k].End() - augs[k].Start()
  {
    hide Rewritten;
    ShiftOfPrefix(|src|, augs, k);
    WrittenAt(src, augs, k);
  }

  /** r is what undoing the adjustment with the greatest offset up to off makes of off; offsets do not become negative. */
  ghost predicate Undone(adjs: seq<PosAdjustment>, off: nat, r: nat) {
    if forall a | a in adjs :: a.offset > off then r == off
    else exists a ::
      && a in adjs && a.offset <= off
      && (forall a' | a' in adjs && a'.offset <= off :: a'.offset <= a.offset)
      && r == if off < a.reduceBy then 0 else off - a.reduceBy
  }

  /** byOffset reversed: the order in which posAdjuster keeps its adjustments. */
  method SortDescending(adjs: seq<PosAdjustment>) returns (r: seq<PosAdjustment>)
    ensures multiset(r) == multiset(adjs)
    ensures forall i, j | 0 <= i < j < |r| :: r[j].offset <= r[i].offset
  {
    var less := (a: PosAdjustment, b: PosAdjustment) => b.offset < a.offset;
    r := Sorting.Sort(adjs, less);
    forall i, j | 0 <= i < j < |r| ensures r[j].offset <= r[i].offset {
      assert !less(r[j], r[i]);
    }
  }

  /** posAdjuster.Pos, on offsets. */
  method AdjustedOffset(adjs: seq<PosAdjustment>, pos: nat) returns (off: nat)
    requires forall i, j | 0 <= i < j < |adjs| :: adjs[j].offset <= adjs[i].offset
    ensures Undone(adjs, pos, off)
  {
    off := pos;
    var i := Sorting.Search(|adjs|, (i: int) requires 0 <= i < |adjs| => adjs[i].offset <= pos);
    if i < |adjs| {
      assert forall a | a in adjs && a.offset <= pos :: a.offset <= adjs[i].offset;
      assert adjs[i] in adjs;
      off := if off < adjs[i].reduceBy then 0 else off - adjs[i].reduceBy;
    }
  }

  lemma {:induction false} AdjustmentsIncrease(size: nat, augs: seq<Augmentation>, a: PosAdjustment)
    requires Ordered(size, augs) && a in Adjustments(augs)
    ensures a.offset < Done(augs) + Growth(augs) && a.reduceBy <= Growth(augs)
    decreases |augs|
  {
    var init, last := augs[..|augs| - 1], augs[|augs| - 1];
    DoneBefore(size, augs);
    if a in Adjustments(init) {
      AdjustmentsIncrease(size, init, a);
    } else {
      assert last.Growth() > 0;
    }
  }

  lemma {:induction false} ShiftAtMost(augs: seq<Augmentation>, b: nat)
    ensures Shift(augs, b) <= Growth(augs)
    decreases |augs|
  {
    if augs != [] {
      ShiftAtMost(augs[..|augs| - 1], b);
    }
  }

  /** The adjustment in force at the new offset of b takes back exactly the shift of b. */
  lemma {:induction false} AdjustmentInForce(size: nat, augs: seq<Augmentation>, b: nat, a: PosAdjustment)
    requires Ordered(size, augs)
    requires a in Adjustments(augs) && a.offset <= NewOffset(augs, b)
    requires forall a' | a' in Adjustments(augs) && a'.offset <= NewOffset(augs, b) :: a'.offset <= a.offset
    ensures a.reduceBy == Shift(augs, b)
    decreases |augs|
  {
    var init, last := augs[..|augs| - 1], augs[|augs| - 1];
    DoneBefore(size, augs);
    if last.Start() <= b {
      ShiftBehind(size, init, b);
      if last.Dots? {
        AdjustmentInForce(size, init, b, a);
      } else {
        var newest := PosAdjustment(last.Start() + Growth(init), Growth(augs));
        assert newest in Adjustments(augs);
        if a in Adjustments(init) {
          AdjustmentsIncrease(size, init, a);
        }
      }
    } else {
      ShiftAtMost(init, b);
      assert a in Adjustments(init);
      AdjustmentInForce(size, init, b, a);
    }
  }

  lemma {:induction false} NoAdjustmentInForce(size: nat, augs: seq<Augmentation>, b: nat)
    requires Ordered(size, augs)
    requires forall a | a in Adjustments(augs) :: a.offset > NewOffset(augs, b)
    ensures Shift(augs, b) == 0
    decreases |augs|
  {
    if augs != [] {
      var init, last := augs[..|augs| - 1], augs[|augs| - 1];
      DoneBefore(size, augs);
      var newest := PosAdjustment(last.Start() + Growth(init), Growth(augs));
      assert !last.Dots? ==> newest in Adjustments(augs);
      ShiftAtMost(init, b);
      if last.Start() <= b {
        ShiftBehind(size, init, b);
      }
      NoAdjustmentInForce(size, init, b);
    }
  }

  /**
   * Adjusting undoes rewriting: from the new offset of any source offset, the adjustments, in whatever order they are
   * searched, lead back to it.
   */
  lemma {:induction false} AdjustingUndoesRewriting(size: nat, augs: seq<Augmentation>, adjs: seq<PosAdjustment>, b: nat, off: nat)
    requires Ordered(size, augs) && multiset(adjs) == multiset(Adjustments(augs))
    requires Undone(adjs, NewOffset(augs, b), off)
    ensures off == b
  {
    assert forall a :: a in adjs <==> a in Adjustments(augs) by {
      forall a ensures a in adjs <==> a in Adjustments(augs) { assert a in adjs <==> a in multiset(adjs); }
    }
    if forall a | a in adjs :: a.offset > NewOffset(augs, b) {
      NoAdjustmentInForce(size, augs, b);
    } else {
      var n := NewOffset(augs, b);
      var a :| a in adjs && a.offset <= n && (forall a' | a' in adjs && a'.offset <= n :: a'.offset <= a.offset)
               && off == if n < a.reduceBy then 0 else n - a.reduceBy;
      AdjustmentInForce(size, augs, b, a);
    }
  }
}
