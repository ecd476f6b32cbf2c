/** Model of cleanupFilePos (main.go): line breaks and comments inside changed sections are removed. */
module LineTable {
  import Sorting

  /** A line table: the first line starts at 0, and starts increase. */
  predicate WellFormed(lines: seq<nat>) {
    lines != [] && lines[0] == 0 && forall i, j | 0 <= i < j < |lines| :: lines[i] < lines[j]
  }

  function CountUpTo(lines: seq<nat>, off: int): nat {
    if lines == [] then 0 else CountUpTo(lines[..|lines| - 1], off) + if lines[|lines| - 1] <= off then 1 else 0
  }

  /** The part of token.File that is used: the offsets at which lines start. */
  class TokenFile {
    const base: nat
    var lines: seq<nat>

    constructor (base: nat, lines: seq<nat>)
      requires WellFormed(lines)
      ensures this.base == base && this.lines == lines
    {
      this.base, this.lines := base, lines;
    }

    /** The number of the line that holds a position; 0 for no position. */
    function Line(pos: nat): nat
      requires pos == 0 || base <= pos
      reads this
    {
      if pos == 0 then 0 else CountUpTo(lines, pos - base)
    }

    /** Joins a line with the next one, which shifts the numbers of all later lines. */
    method MergeLine(line: nat)
      requires 1 <= line < |lines|
      modifies this
      ensures lines == old(lines)[..line] + old(lines)[line + 1..]
    {
      lines := lines[..line] + lines[line + 1..];
    }
  }

  datatype Interval = Interval(start: nat, end: nat) {
    /** Intervals without a start are skipped. */
    predicate Valid() {
      start != 0
    }
  }

  datatype Comment = Comment(pos: nat, end: nat)

  class CommentGroup {
    var list: seq<Comment>

    constructor (list: seq<Comment>)
      ensures this.list == list
    {
      this.list := list;
    }
  }

  // ------------------------------------------------------------- specification

  /** The line break before the line that starts at offset `start` lies in the changed section. */
  predicate Breaks(iv: Interval, base: nat, start: nat) {
    iv.Valid() && iv.start < base + start <= iv.end
  }

  predicate Covers(iv: Interval, c: Comment) {
    iv.Valid() && iv.start <= c.pos && c.end <= iv.end
  }

  predicate Broken(ivs: seq<Interval>, base: nat, start: nat) {
    exists iv | iv in ivs :: Breaks(iv, base, start)
  }

  predicate Covered(ivs: seq<Interval>, c: Comment) {
    exists iv | iv in ivs :: Covers(iv, c)
  }

  /** The line starts that are left when all breaks inside changed sections are removed at once. */
  function LinesLeft(lines: seq<nat>, base: nat, ivs: seq<Interval>): seq<nat> {
    if lines == [] then []
    else
      var last := lines[|lines| - 1];
      LinesLeft(lines[..|lines| - 1], base, ivs) + if Broken(ivs, base, last) then [] else [last]
  }

  /** The comments that no changed section covers, in order. */
  function CommentsLeft(list: seq<Comment>, ivs: seq<Interval>): seq<Comment> {
    if list == [] then []
    else
      var last := list[|list| - 1];
      CommentsLeft(list[..|list| - 1], ivs) + if Covered(ivs, last) then [] else [last]
  }

  /** Position p belongs to the changed section. */
  predicate Within(iv: Interval, p: nat) {
    iv.Valid() && iv.start <= p < iv.end
  }

  /** A line is joined with the one before it exactly when the line break between them, a single byte, is in a section. */
  lemma {:induction false} BrokenMeansBreakWithin(ivs: seq<Interval>, base: nat, start: nat)
    requires start > 0
    ensures Broken(ivs, base, start) <==> exists iv | iv in ivs :: Within(iv, base + start - 1)
  {
    forall iv | iv in ivs ensures Breaks(iv, base, start) <==> Within(iv, base + start - 1) {}
  }

  /** A comment is covered exactly when all its bytes are in one section. */
  lemma {:induction false} CoveredMeansBytesWithin(ivs: seq<Interval>, c: Comment)
    requires c.pos < c.end
    ensures Covered(ivs, c) <==> exists iv | iv in ivs :: forall p | c.pos <= p < c.end :: Within(iv, p)
  {
    forall iv ensures Covers(iv, c) <==> forall p | c.pos <= p < c.end :: Within(iv, p) {
      if forall p | c.pos <= p < c.end :: Within(iv, p) {
        assert Within(iv, c.pos) && Within(iv, c.end - 1);
      }
    }
  }

  lemma {:induction false} LinesLeftAreUnbroken(lines: seq<nat>, base: nat, ivs: seq<Interval>, start: nat)
    ensures start in LinesLeft(lines, base, ivs) <==> start in lines && !Broken(ivs, base, start)
  {
    if lines != [] {
      LinesLeftAreUnbroken(lines[..|lines| - 1], base, ivs, start);
      assert start in lines <==> start in lines[..|lines| - 1] || start == lines[|lines| - 1];
    }
  }

  lemma {:induction false} CommentsLeftAreUncovered(list: seq<Comment>, ivs: seq<Interval>, c: Comment)
    ensures c in CommentsLeft(list, ivs) <==> c in list && !Covered(ivs, c)
  {
    if list != [] {
      CommentsLeftAreUncovered(list[..|list| - 1], ivs, c);
      assert c in list <==> c in list[..|list| - 1] || c == list[|list| - 1];
    }
  }

  /** Comments keep their order, and each is kept or dropped by itself. */
  lemma {:induction false} CommentsLeftInOrder(a: seq<Comment>, b: seq<Comment>, ivs: seq<Interval>)
    ensures CommentsLeft(a + b, ivs) == CommentsLeft(a, ivs) + CommentsLeft(b, ivs)
    decreases |b|
  {
    if b == [] {
      assert a + b == a;
    } else {
      var last := |b| - 1;
      assert (a + b)[..|a + b| - 1] == a + b[..last];
      CommentsLeftInOrder(a, b[..last], ivs);
    }
  }

  lemma {:induction false} LastIsGreatest(lines: seq<nat>)
    requires WellFormed(lines)
    ensures forall i | 0 <= i < |lines| :: lines[i] <= lines[|lines| - 1]
  {
  }

  /** What is left is a line table again: in particular, its first line still starts at 0. */
  lemma {:induction false} LinesLeftAreWellFormed(lines: seq<nat>, base: nat, ivs: seq<Interval>)
    requires WellFormed(lines)
    requires forall iv | iv in ivs && iv.Valid() :: base <= iv.start
    ensures WellFormed(LinesLeft(lines, base, ivs))
    ensures LinesLeft(lines, base, ivs)[|LinesLeft(lines, base, ivs)| - 1] <= lines[|lines| - 1]
    decreases |lines|
  {
    if |lines| == 1 {
      assert lines[..0] == [] && lines == [0];
    } else {
      var init, last := lines[..|lines| - 1], lines[|lines| - 1];
      LinesLeftAreWellFormed(init, base, ivs);
      var left := LinesLeft(init, base, ivs);
      assert LinesLeft(lines, base, ivs) == left + if Broken(ivs, base, last) then [] else [last];
      hide LinesLeft, Broken;
      LastIsGreatest(left);
      assert lines[|lines| - 2] < last;
    }
  }

  // ---------------------------------------------------------- lines by their number

  lemma {:induction false} CountByIndex(lines: seq<nat>, off: int, i: nat)
    requires i < |lines| && forall j, k | 0 <= j < k < |lines| :: lines[j] < lines[k]
    ensures lines[i] <= off <==> i < CountUpTo(lines, off)
    ensures CountUpTo(lines, off) <= |lines|
    decreases |lines|
  {
    var last := |lines| - 1;
    if last > 0 {
      CountByIndex(lines[..last], off, if i < last then i else last - 1);
    }
  }

  /** The number of a line counts from 1: it is the last one that does not start behind the position. */
  lemma {:induction false} LineHoldsPosition(file: TokenFile, pos: nat)
    requires WellFormed(file.lines) && pos > 0 && file.base <= pos
    ensures var n := file.Line(pos);
      && 1 <= n <= |file.lines|
      && file.lines[n - 1] <= pos - file.base
      && (n < |file.lines| ==> pos - file.base < file.lines[n])
  {
    forall i | 0 <= i < |file.lines| ensures file.lines[i] <= pos - file.base <==> i < file.Line(pos) {
      CountByIndex(file.lines, pos - file.base, i);
    }
    CountByIndex(file.lines, pos - file.base, 0);
  }

  /** The lines without those at the given indexes. */
  function Without(lines: seq<nat>, s: set<nat>): seq<nat> {
    if lines == [] then []
    else
      var last := |lines| - 1;
      Without(lines[..last], s) + if last in s then [] else [lines[last]]
  }

  lemma {:induction false} WithoutNone(lines: seq<nat>, s: set<nat>)
    requires forall i | i in s :: |lines| <= i
    ensures Without(lines, s) == lines
    decreases |lines|
  {
    if lines != [] {
      WithoutNone(lines[..|lines| - 1], s);
    }
  }

  /** Deleting line d behind which everything in s has been deleted already. */
  lemma {:induction false} WithoutLaterOnes(lines: seq<nat>, s: set<nat>, d: nat)
    requires d < |lines| && forall i | i in s :: d < i
    ensures |Without(lines, s)| > d
    ensures Without(lines, s + {d}) == Without(lines, s)[..d] + Without(lines, s)[d + 1..]
    decreases |lines|
  {
    var last := |lines| - 1;
    var init := lines[..last];
    if d < last {
      WithoutLaterOnes(init, s, d);
      var w, t := Without(init, s), if last in s then [] else [lines[last]];
      assert Without(lines, s + {d}) == Without(init, s + {d}) + t;
      assert Without(lines, s) == w + t;
      hide Without;
      assert (w + t)[..d] == w[..d] && (w + t)[d + 1..] == w[d + 1..] + t;
    } else {
      WithoutNone(init, s);
      WithoutNone(init, s + {d});
      assert Without(lines, s) == init + [lines[last]] && Without(lines, s + {d}) == init + [];
    }
  }

  lemma {:induction false} WithoutTheBroken(lines: seq<nat>, s: set<nat>, base: nat, ivs: seq<Interval>)
    requires forall i | 0 <= i < |lines| :: i in s <==> Broken(ivs, base, lines[i])
    ensures Without(lines, s) == LinesLeft(lines, base, ivs)
    decreases |lines|
  {
    if lines != [] {
      WithoutTheBroken(lines[..|lines| - 1], s, base, ivs);
    }
  }

  /** The indexes, as line numbers, of the breaks inside one changed section. */
  ghost predicate NumbersOf(s: set<nat>, lines: seq<nat>, base: nat, ivs: seq<Interval>) {
    forall i: nat :: i in s <==> i < |lines| && Broken(ivs, base, lines[i])
  }

  /** All positions are in the file. */
  predicate InFile(iv: Interval, base: nat) {
    (iv.start == 0 || base <= iv.start) && (iv.end == 0 || base <= iv.end)
  }

  lemma {:induction false} BrokenByOneMore(ivs: seq<Interval>, iv: Interval, base: nat, start: nat)
    ensures Broken(ivs + [iv], base, start) <==> Broken(ivs, base, start) || Breaks(iv, base, start)
  {
    assert iv in ivs + [iv];
    assert forall x | x in ivs :: x in ivs + [iv];
  }

  /** The loop that collects the lines of one section. */
  method AddLines(file: TokenFile, iv: Interval, s: set<nat>, ghost before: seq<Interval>) returns (s': set<nat>)
    requires WellFormed(file.lines) && iv.Valid() && InFile(iv, file.base)
    requires NumbersOf(s, file.lines, file.base, before)
    ensures NumbersOf(s', file.lines, file.base, before + [iv])
  {
    s' := s;
    var i := file.Line(iv.start);
    var end := file.Line(iv.end);
    ghost var start := i;
    while i < end
      invariant i >= start
      invariant forall k: nat :: k in s' <==> k in s || (0 < k && start <= k < i && k < end)
      decreases end - i
    {
      if i > 0 {
        s' := s' + {i};
      }
      i := i + 1;
    }
    forall k: nat
      ensures k in s' <==> k < |file.lines| && Broken(before + [iv], file.base, file.lines[k])
    {
      if k < |file.lines| {
        CountByIndex(file.lines, iv.start - file.base, k);
        CountByIndex(file.lines, iv.end - file.base, k);
        BrokenByOneMore(before, iv, file.base, file.lines[k]);
      } else {
        CountByIndex(file.lines, iv.end - file.base, 0);
      }
    }
  }

  // ------------------------------------------------------------------- comments

  function Drop(list: seq<Comment>, iv: Interval): seq<Comment> {
    if list == [] then []
    else Drop(list[..|list| - 1], iv) + if Covers(iv, list[|list| - 1]) then [] else [list[|list| - 1]]
  }

  lemma {:induction false} DropConcat(a: seq<Comment>, b: seq<Comment>, iv: Interval)
    ensures Drop(a + b, iv) == Drop(a, iv) + Drop(b, iv)
    decreases |b|
  {
    if b == [] {
      assert a + b == a;
    } else {
      assert (a + b)[..|a + b| - 1] == a + b[..|b| - 1];
      DropConcat(a, b[..|b| - 1], iv);
    }
  }

  lemma {:induction false} DropTwice(list: seq<Comment>, iv: Interval)
    ensures Drop(Drop(list, iv), iv) == Drop(list, iv)
  {
    if list != [] {
      var init, last := list[..|list| - 1], list[|list| - 1];
      DropTwice(init, iv);
      DropConcat(Drop(init, iv), if Covers(iv, last) then [] else [last], iv);
    }
  }

  lemma {:induction false} LeftByOneMore(list: seq<Comment>, ivs: seq<Interval>, iv: Interval)
    ensures CommentsLeft(list, ivs + [iv]) == if iv.Valid() then Drop(CommentsLeft(list, ivs), iv) else CommentsLeft(list, ivs)
  {
    if list != [] {
      var init, last := list[..|list| - 1], list[|list| - 1];
      LeftByOneMore(init, ivs, iv);
      assert iv in ivs + [iv];
      assert forall x | x in ivs :: x in ivs + [iv];
      DropConcat(CommentsLeft(init, ivs), if Covered(ivs, last) then [] else [last], iv);
    }
  }

  /** The loop over the comments of one group. */
  method RemoveFromGroup(cg: CommentGroup, iv: Interval)
    requires iv.Valid()
    modifies cg
    ensures cg.list == Drop(old(cg.list), iv)
  {
    var list: seq<Comment> := [];
    for k := 0 to |cg.list|
      invariant list == Drop(cg.list[..k], iv)
      invariant cg.list == old(cg.list)
    {
      assert cg.list[..k + 1][..k] == cg.list[..k];
      var c := cg.list[k];
      if !(c.pos >= iv.start && c.end <= iv.end) {
        list := list + [c];
      }
    }
    assert cg.list[..|cg.list|] == cg.list;
    cg.list := list;
  }

  /** The loop over the groups, for one section; a group that is listed twice does no harm. */
  method RemoveComments(comments: seq<CommentGroup>, iv: Interval)
    requires iv.Valid()
    modifies comments
    ensures forall g | g in comments :: g.list == Drop(old(g.list), iv)
  {
    hide Drop;
    for j := 0 to |comments|
      invariant forall g | g in comments[..j] :: g.list == Drop(old(g.list), iv)
      invariant forall g | g in comments && g !in comments[..j] :: g.list == old(g.list)
    {
      var cg := comments[j];
      DropTwice(old(cg.list), iv);
      RemoveFromGroup(cg, iv);
      assert comments[..j + 1] == comments[..j] + [cg];
    }
    assert comments[..|comments|] == comments;
  }

  // ------------------------------------------------------------------- cleanup

  function SetOf(numbers: seq<nat>): set<nat> {
    set n | n in numbers
  }

  /** Deleting line after line, from the last to the first, equals removing all of them at once. */
  method MergeDescending(file: TokenFile, numbers: seq<nat>)
    requires WellFormed(file.lines)
    requires forall i, j | 0 <= i < j < |numbers| :: numbers[i] < numbers[j]
    requires forall n | n in numbers :: 1 <= n < |file.lines|
    modifies file
    ensures file.lines == Without(old(file.lines), SetOf(numbers))
  {
    hide Without, WellFormed;
    ghost var lines := file.lines;
    WithoutNone(lines, {});
    assert SetOf(numbers[|numbers|..]) == {};
    for i := |numbers| downto 0
      invariant file.lines == Without(lines, SetOf(numbers[i..]))
    {
      ghost var s := SetOf(numbers[i + 1..]);
      assert numbers[i] in numbers;
      WithoutLaterOnes(lines, s, numbers[i]);
      assert numbers[i..] == [numbers[i]] + numbers[i + 1..];
      assert SetOf(numbers[i..]) == s + {numbers[i]};
      file.MergeLine(numbers[i]);
    }
    assert numbers[0..] == numbers;
  }

  lemma {:induction false} NothingCovered(list: seq<Comment>)
    ensures CommentsLeft(list, []) == list
  {
    if list != [] {
      NothingCovered(list[..|list| - 1]);
    }
  }

  lemma {:induction false} FirstLineStays(lines: seq<nat>, s: set<nat>, base: nat, ivs: seq<Interval>)
    requires WellFormed(lines) && NumbersOf(s, lines, base, ivs) && forall iv | iv in ivs :: InFile(iv, base)
    ensures forall n | n in s :: 1 <= n < |lines|
  {
  }

  lemma {:induction false} AppendKeepsDistinct(list: seq<nat>, n: nat)
    requires n !in list && forall i, j | 0 <= i < j < |list| :: list[i] != list[j]
    ensures forall i, j | 0 <= i < j < |list + [n]| :: (list + [n])[i] != (list + [n])[j]
  {
    forall i, j | 0 <= i < j < |list + [n]| ensures (list + [n])[i] != (list + [n])[j] {
      assert (list + [n])[i] == list[i] && list[i] in list;
    }
  }

  /** The keys of the set of lines, sorted. */
  method Numbers(s: set<nat>) returns (numbers: seq<nat>)
    ensures forall i, j | 0 <= i < j < |numbers| :: numbers[i] < numbers[j]
    ensures forall n :: n in numbers <==> n in s
  {
    var rest: set<nat>, list: seq<nat> := s, [];
    while rest != {}
      invariant rest <= s && forall n :: n in list <==> n in s - rest
      invariant forall i, j | 0 <= i < j < |list| :: list[i] != list[j]
    {
      var n :| n in rest;
      AppendKeepsDistinct(list, n);
      rest, list := rest - {n}, list + [n];
    }
    var less := (a: nat, b: nat) => a < b;
    numbers := Sorting.Sort(list, less);
    Sorting.SortKeepsMembers(list, numbers);
    Sorting.SortKeepsDistinct(list, numbers);
    forall i, j | 0 <= i < j < |numbers| ensures numbers[i] < numbers[j] {
      assert !less(numbers[j], numbers[i]);
    }
  }

  method CleanupFilePos(file: TokenFile, changed: seq<Interval>, comments: seq<CommentGroup>)
    requires WellFormed(file.lines) && forall iv | iv in changed :: InFile(iv, file.base)
    modifies file, comments
    ensures file.lines == LinesLeft(old(file.lines), file.base, changed)
    ensures forall g | g in comments :: g.list == CommentsLeft(old(g.list), changed)
  {
    var linesToDelete: set<nat> := {};
    forall g | g in comments ensures g.list == CommentsLeft(g.list, changed[..0]) { NothingCovered(g.list); }
    for i := 0 to |changed|
      invariant file.lines == old(file.lines)
      invariant NumbersOf(linesToDelete, file.lines, file.base, changed[..i])
      invariant forall g | g in comments :: g.list == CommentsLeft(old(g.list), changed[..i])
    {
      var dr := changed[i];
      assert changed[..i + 1] == changed[..i] + [dr];
      forall g | g in comments
        ensures CommentsLeft(old(g.list), changed[..i + 1]) ==
          if dr.Valid() then Drop(CommentsLeft(old(g.list), changed[..i]), dr) else CommentsLeft(old(g.list), changed[..i])
      {
        LeftByOneMore(old(g.list), changed[..i], dr);
      }
      if dr.Valid() {
        linesToDelete := AddLines(file, dr, linesToDelete, changed[..i]);
        RemoveComments(comments, dr);
      } else {
        forall start: nat ensures Broken(changed[..i + 1], file.base, start) <==> Broken(changed[..i], file.base, start) {
          BrokenByOneMore(changed[..i], dr, file.base, start);
        }
      }
    }
    assert changed[..|changed|] == changed;
    var numbers := Numbers(linesToDelete);
    FirstLineStays(file.lines, linesToDelete, file.base, changed);
    MergeDescending(file, numbers);
    assert SetOf(numbers) == linesToDelete;
    WithoutTheBroken(old(file.lines), linesToDelete, file.base, changed);
  }
}
