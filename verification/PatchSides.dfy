/** Model of splitPatch (internal/parse/patch.go) and ToBytes (internal/parse/section/bytes.go). */
module PatchSides {

  datatype LineValue = LineValue(pos: nat, text: string)

  /** A line of a section; splitting a patch edits it in place. */
  class Line {
    var startPos: nat
    var text: string

    constructor (startPos: nat, text: string)
      ensures this.startPos == startPos && this.text == text
    {
      this.startPos, this.text := startPos, text;
    }

    function Value(): LineValue
      reads this
    {
      LineValue(startPos, text)
    }

    function End(): nat
      reads this
    {
      startPos + |text|
    }
  }

  /** Maps an offset in the contents of one side to the position in the patch file. */
  datatype LinePos = LinePos(offset: nat, pos: nat)

  datatype Version = Version(contents: string, lines: seq<LinePos>)

  function Values(lines: seq<Line>): (r: seq<LineValue>)
    reads lines
    ensures |r| == |lines|
  {
    seq(|lines|, i requires 0 <= i < |lines| reads lines => lines[i].Value())
  }

  // ------------------------------------------------------------- the two sides

  predicate Marked(l: LineValue, mark: char) {
    |l.text| > 0 && l.text[0] == mark
  }

  /** The line without its mark, which moves its start. */
  function Unmarked(l: LineValue): LineValue
    requires |l.text| > 0
  {
    LineValue(l.pos + 1, l.text[1..])
  }

  function Edited(l: LineValue): LineValue {
    if Marked(l, '-') || Marked(l, '+') then Unmarked(l) else l
  }

  /** One side of a patch: all lines but those of the other side, marks dropped. */
  function Side(lines: seq<LineValue>, other: char): seq<LineValue> {
    if lines == [] then []
    else
      var last := lines[|lines| - 1];
      Side(lines[..|lines| - 1], other) + if Marked(last, other) then [] else [Edited(last)]
  }

  function Contents(lines: seq<LineValue>): string {
    if lines == [] then "" else Contents(lines[..|lines| - 1]) + lines[|lines| - 1].text + "\n"
  }

  function Starts(lines: seq<LineValue>): (r: seq<LinePos>)
    ensures |r| == |lines|
  {
    if lines == [] then []
    else
      var init := lines[..|lines| - 1];
      Starts(init) + [LinePos(|Contents(init)|, lines[|lines| - 1].pos)]
  }

  function VersionOf(lines: seq<LineValue>): (v: Version)
    ensures |v.lines| == |lines|
  {
    Version(Contents(lines), Starts(lines))
  }

  /** A version with one more line written to it. */
  function Write(v: Version, l: LineValue): Version {
    Version(v.contents + l.text + "\n", v.lines + [LinePos(|v.contents|, l.pos)])
  }

  lemma {:induction false} WriteLast(lines: seq<LineValue>, l: LineValue)
    ensures VersionOf(lines + [l]) == Write(VersionOf(lines), l)
  {
    assert (lines + [l])[..|lines|] == lines;
  }

  lemma {:induction false} SideEnds(lines: seq<LineValue>, i: nat, other: char)
    requires i < |lines|
    ensures VersionOf(Side(lines[..i + 1], other)) ==
      if Marked(lines[i], other) then VersionOf(Side(lines[..i], other))
      else Write(VersionOf(Side(lines[..i], other)), Edited(lines[i]))
  {
    hide VersionOf;
    assert lines[..i + 1][..i] == lines[..i];
    if Marked(lines[i], other) {
      assert Side(lines[..i], other) + [] == Side(lines[..i], other);
    } else {
      WriteLast(Side(lines[..i], other), Edited(lines[i]));
    }
  }

  // ------------------------------------------------------- lines as they are written

  datatype Tag = Minus | Plus | Context

  /** A line of a patch: the side it belongs to, its text without a mark, and where the first byte of the text stands. */
  datatype TaggedLine = TaggedLine(tag: Tag, text: string, pos: nat) {
    /** A mark stands directly before the text; a context line does not begin with one. */
    predicate Proper() {
      if tag.Context? then text == "" || (text[0] != '-' && text[0] != '+') else pos > 0
    }

    function Printed(): LineValue
      requires Proper()
    {
      match tag
      case Minus => LineValue(pos - 1, "-" + text)
      case Plus => LineValue(pos - 1, "+" + text)
      case Context => LineValue(pos, text)
    }
  }

  ghost predicate PrintedAs(ts: seq<TaggedLine>, lines: seq<LineValue>) {
    |lines| == |ts| && forall i | 0 <= i < |ts| :: ts[i].Proper() && lines[i] == ts[i].Printed()
  }

  /** The texts of one side, in order. */
  function Texts(ts: seq<TaggedLine>, side: Tag): seq<LineValue> {
    if ts == [] then []
    else
      (if ts[0].tag == side || ts[0].tag == Context then [LineValue(ts[0].pos, ts[0].text)] else []) + Texts(ts[1..], side)
  }

  /** The texts with a line break behind each. */
  function Joined(lines: seq<LineValue>): string {
    if lines == [] then "" else lines[0].text + "\n" + Joined(lines[1..])
  }

  /** The version holds exactly these lines, and records for each where it starts, there and in the patch file. */
  ghost predicate Holds(v: Version, lines: seq<LineValue>) {
    && v.contents == Joined(lines)
    && |v.lines| == |lines|
    && forall k | 0 <= k < |lines| :: v.lines[k] == LinePos(|Joined(lines[..k])|, lines[k].pos)
  }

  lemma {:induction false} TextsOfLast(ts: seq<TaggedLine>, side: Tag)
    requires ts != []
    ensures var t := ts[|ts| - 1];
      Texts(ts, side) == Texts(ts[..|ts| - 1], side)
        + if t.tag == side || t.tag == Context then [LineValue(t.pos, t.text)] else []
    decreases |ts|
  {
    if |ts| > 1 {
      TextsOfLast(ts[1..], side);
      assert ts[1..][..|ts| - 2] == ts[..|ts| - 1][1..];
    }
  }

  lemma {:induction false} JoinedLast(lines: seq<LineValue>)
    requires lines != []
    ensures Joined(lines) == Joined(lines[..|lines| - 1]) + lines[|lines| - 1].text + "\n"
    decreases |lines|
  {
    var n := |lines| - 1;
    if n > 0 {
      JoinedLast(lines[1..]);
      assert lines[1..][..n - 1] == lines[..n][1..];
    } else {
      assert Joined(lines[1..]) == "";
      assert Joined(lines[..0]) == "";
    }
  }

  lemma {:induction false} SideHasTheTexts(ts: seq<TaggedLine>, lines: seq<LineValue>, side: Tag, other: char)
    requires PrintedAs(ts, lines) && ((side == Minus && other == '+') || (side == Plus && other == '-'))
    ensures Side(lines, other) == Texts(ts, side)
    decreases |ts|
  {
    if ts != [] {
      var n := |ts| - 1;
      SideHasTheTexts(ts[..n], lines[..n], side, other);
      TextsOfLast(ts, side);
      assert lines[n] == ts[n].Printed() && ts[n].Proper();
      assert !ts[n].tag.Context? ==> lines[n].text[1..] == ts[n].text;
    }
  }

  lemma {:induction false} ContentsAreJoined(lines: seq<LineValue>)
    ensures Contents(lines) == Joined(lines)
    decreases |lines|
  {
    if lines != [] {
      ContentsAreJoined(lines[..|lines| - 1]);
      JoinedLast(lines);
    }
  }

  lemma {:induction false} VersionHolds(lines: seq<LineValue>)
    ensures Holds(VersionOf(lines), lines)
    decreases |lines|
  {
    ContentsAreJoined(lines);
    if lines != [] {
      var init := lines[..|lines| - 1];
      VersionHolds(init);
      ContentsAreJoined(init);
      forall k | 0 <= k < |lines|
        ensures Starts(lines)[k] == LinePos(|Joined(lines[..k])|, lines[k].pos)
      {
        if k < |init| {
          assert init[..k] == lines[..k] && Starts(init)[k] == VersionOf(init).lines[k];
        }
      }
    }
  }

  /** Whatever marks the lines of a patch bear, its sides hold exactly the texts behind them. */
  lemma {:induction false} SidesHoldTheTexts(ts: seq<TaggedLine>, lines: seq<LineValue>)
    requires PrintedAs(ts, lines)
    ensures Holds(VersionOf(Side(lines, '+')), Texts(ts, Minus)) && Holds(VersionOf(Side(lines, '-')), Texts(ts, Plus))
  {
    hide Holds, VersionOf, Side, Texts, PrintedAs;
    SideHasTheTexts(ts, lines, Minus, '+');
    SideHasTheTexts(ts, lines, Plus, '-');
    VersionHolds(Texts(ts, Minus));
    VersionHolds(Texts(ts, Plus));
  }

  /** Every patch is printed from some list of lines. */
  lemma {:induction false} EveryPatchIsPrinted(lines: seq<LineValue>) returns (ts: seq<TaggedLine>)
    ensures PrintedAs(ts, lines)
  {
    ts := [];
    for i := 0 to |lines|
      invariant PrintedAs(ts, lines[..i])
    {
      var l := lines[i];
      var t := if Marked(l, '-') then TaggedLine(Minus, l.text[1..], l.pos + 1)
               else if Marked(l, '+') then TaggedLine(Plus, l.text[1..], l.pos + 1)
               else TaggedLine(Context, l.text, l.pos);
      assert t.Printed() == l;
      ts := ts + [t];
    }
  }

  lemma {:induction false} EditedIsText(t: TaggedLine)
    requires t.Proper()
    ensures Edited(t.Printed()) == LineValue(t.pos, t.text)
  {
    assert !t.tag.Context? ==> t.Printed().text[1..] == t.text;
  }

  /** The line is left with its text, at the position of the text. */
  ghost predicate Left(lines: seq<LineValue>, ts: seq<TaggedLine>) {
    |lines| == |ts| && forall i | 0 <= i < |ts| :: lines[i] == LineValue(ts[i].pos, ts[i].text)
  }

  lemma {:induction false} EditingLeavesTexts(lines: seq<LineValue>, edited: seq<LineValue>, ts: seq<TaggedLine>)
    requires PrintedAs(ts, lines) && |edited| == |lines| && forall i | 0 <= i < |lines| :: edited[i] == Edited(lines[i])
    ensures Left(edited, ts)
  {
    hide Edited;
    forall i | 0 <= i < |ts| ensures edited[i] == LineValue(ts[i].pos, ts[i].text) { EditedIsText(ts[i]); }
  }

  /** Drops the mark of a line, which therefore starts one byte later and ends where it did. */
  method DropMark(line: Line) returns (skipMinus: bool, skipPlus: bool)
    modifies line
    ensures line.Value() == Edited(old(line.Value())) && line.End() == old(line.End())
    ensures skipMinus == Marked(old(line.Value()), '+') && skipPlus == Marked(old(line.Value()), '-')
    ensures forall t: TaggedLine | t.Proper() && t.Printed() == old(line.Value()) ::
      && line.text == t.text && line.startPos == t.pos
      && skipMinus == t.tag.Plus? && skipPlus == t.tag.Minus?
  {
    ghost var before := line.Value();
    forall t: TaggedLine | t.Proper() && t.Printed() == before ensures Edited(before) == LineValue(t.pos, t.text) {
      EditedIsText(t);
    }
    skipMinus, skipPlus := false, false;
    if |line.text| > 0 {
      if line.text[0] == '-' {
        skipPlus := true;
        line.text, line.startPos := line.text[1..], line.startPos + 1;
      } else if line.text[0] == '+' {
        skipMinus := true;
        line.text, line.startPos := line.text[1..], line.startPos + 1;
      }
    }
  }

  lemma {:induction false} EmptySides(lines: seq<LineValue>)
    ensures VersionOf(Side(lines[..0], '+')) == Version("", []) == VersionOf(Side(lines[..0], '-'))
  {
  }

  method SplitPatch(patch: seq<Line>) returns (before: Version, after: Version)
    requires forall i, j | 0 <= i < j < |patch| :: patch[i] != patch[j]
    modifies patch
    ensures before == VersionOf(Side(old(Values(patch)), '+'))
    ensures after == VersionOf(Side(old(Values(patch)), '-'))
    ensures forall i | 0 <= i < |patch| :: patch[i].Value() == Edited(old(patch[i].Value()))
    ensures forall i | 0 <= i < |patch| :: patch[i].End() == old(patch[i].End())
    ensures forall ts | PrintedAs(ts, old(Values(patch))) ::
      Holds(before, Texts(ts, Minus)) && Holds(after, Texts(ts, Plus)) && Left(Values(patch), ts)
  {
    hide PrintedAs, Holds, Texts, Left, Side, Edited, VersionOf, Write;
    ghost var lines := Values(patch);
    before, after := Version("", []), Version("", []);
    assert VersionOf(Side(lines[..0], '+')) == before == VersionOf(Side(lines[..0], '-')) by { EmptySides(lines); }
    for i := 0 to |patch|
      invariant before == VersionOf(Side(lines[..i], '+'))
      invariant after == VersionOf(Side(lines[..i], '-'))
      invariant forall j | 0 <= j < i :: patch[j].Value() == Edited(lines[j]) && patch[j].End() == old(patch[j].End())
      invariant forall j | i <= j < |patch| :: patch[j].Value() == lines[j] && patch[j].End() == old(patch[j].End())
    {
      SideEnds(lines, i, '+');
      SideEnds(lines, i, '-');
      var skipMinus, skipPlus := DropMark(patch[i]);
      if !skipMinus {
        before := Write(before, patch[i].Value());
      }
      if !skipPlus {
        after := Write(after, patch[i].Value());
      }
    }
    assert lines[..|patch|] == lines;
    forall ts | PrintedAs(ts, lines)
      ensures Holds(before, Texts(ts, Minus)) && Holds(after, Texts(ts, Plus)) && Left(Values(patch), ts)
    {
      SidesHoldTheTexts(ts, lines);
      EditingLeavesTexts(lines, Values(patch), ts);
    }
  }

  /** Section.ToBytes: the same map for the lines as they are. */
  method ToBytes(s: seq<Line>) returns (v: Version)
    ensures v == VersionOf(Values(s)) && Holds(v, Values(s))
  {
    v := Version("", []);
    for i := 0 to |s|
      invariant v == VersionOf(Values(s)[..i])
    {
      WriteLast(Values(s)[..i], s[i].Value());
      assert Values(s)[..i + 1] == Values(s)[..i] + [s[i].Value()];
      v := Write(v, s[i].Value());
    }
    assert Values(s)[..|s|] == Values(s);
    VersionHolds(Values(s));
  }

  // -------------------------------------------------------------- faithfulness

  /** The line is a part of the source, whose first byte has position `base`. */
  ghost predicate CutFrom(l: LineValue, src: string, base: nat) {
    base <= l.pos && l.pos - base + |l.text| <= |src| && src[l.pos - base..l.pos - base + |l.text|] == l.text
  }

  /** Every byte of a line of one side is the byte of the source that its recorded position points at. */
  lemma {:induction false} BytesKeepTheirPositions(lines: seq<LineValue>, src: string, base: nat, k: nat, j: nat)
    requires k < |lines| && j < |lines[k].text| && CutFrom(lines[k], src, base)
    ensures var v := VersionOf(lines);
      && v.lines[k].offset + j < |v.contents|
      && v.lines[k].pos == lines[k].pos
      && base <= v.lines[k].pos + j < base + |src|
      && v.contents[v.lines[k].offset + j] == src[v.lines[k].pos + j - base]
  {
    var init := lines[..|lines| - 1];
    if k < |init| {
      BytesKeepTheirPositions(init, src, base, k, j);
    } else {
      assert src[lines[k].pos - base..lines[k].pos - base + |lines[k].text|][j] == lines[k].text[j];
    }
  }

  /** Lines follow each other without gaps: each starts behind the newline of the previous one. */
  lemma {:induction false} LinesAreContiguous(lines: seq<LineValue>, k: nat)
    requires k < |lines|
    ensures var v := VersionOf(lines);
      && v.lines[k].offset + |lines[k].text| < |v.contents|
      && v.contents[v.lines[k].offset..v.lines[k].offset + |lines[k].text| + 1] == lines[k].text + "\n"
      && v.lines[k].offset + |lines[k].text| + 1 == if k + 1 < |lines| then v.lines[k + 1].offset else |v.contents|
    ensures k == 0 ==> VersionOf(lines).lines[0].offset == 0
  {
    var init := lines[..|lines| - 1];
    var c := Contents(init);
    if k < |init| {
      LinesAreContiguous(init, k);
      var v := VersionOf(lines);
      var lo, hi := v.lines[k].offset, v.lines[k].offset + |lines[k].text| + 1;
      assert v.contents[lo..hi] == c[lo..hi];
    } else {
      assert k == |init|;
    }
  }

  /** Offsets strictly increase. */
  lemma {:induction false} OffsetsIncrease(lines: seq<LineValue>, i: nat, j: nat)
    requires i < j < |lines|
    ensures VersionOf(lines).lines[i].offset < VersionOf(lines).lines[j].offset
    decreases j
  {
    LinesAreContiguous(lines, j - 1);
    if i < j - 1 {
      OffsetsIncrease(lines, i, j - 1);
    }
  }

  /** Where line i of the patch stands on a side that has it. */
  function Rank(lines: seq<LineValue>, other: char, i: nat): nat
    requires i <= |lines|
  {
    |Side(lines[..i], other)|
  }

  lemma {:induction false} SideOfInit(lines: seq<LineValue>, other: char, i: nat)
    requires i < |lines|
    ensures Side(lines[..i], other) <= Side(lines, other)
    ensures !Marked(lines[i], other) ==> Side(lines[..i], other) + [Edited(lines[i])] <= Side(lines, other)
    decreases |lines|
  {
    hide Edited, Marked;
    var n := |lines| - 1;
    if i < n {
      assert lines[..n][..i] == lines[..i];
      SideOfInit(lines[..n], other, i);
    }
  }

  /** A side is exactly the lines without the other side's mark, in order, their own mark dropped. */
  lemma {:induction false} SideHasLine(lines: seq<LineValue>, other: char, i: nat)
    requires i < |lines| && !Marked(lines[i], other)
    ensures Rank(lines, other, i) < |Side(lines, other)|
    ensures Side(lines, other)[Rank(lines, other, i)] == Edited(lines[i])
    ensures forall h | 0 <= h < i && !Marked(lines[h], other) :: Rank(lines, other, h) < Rank(lines, other, i)
  {
    hide Edited, Marked, Side;
    SideOfInit(lines, other, i);
    forall h | 0 <= h < i && !Marked(lines[h], other) ensures Rank(lines, other, h) < Rank(lines, other, i) {
      assert lines[..i][..h] == lines[..h];
      SideOfInit(lines[..i], other, h);
    }
  }

  lemma {:induction false} SideHasNoOther(lines: seq<LineValue>, other: char, k: nat) returns (i: nat)
    requires k < |Side(lines, other)|
    ensures i < |lines| && !Marked(lines[i], other) && Rank(lines, other, i) == k
    decreases |lines|
  {
    var n := |lines| - 1;
    var init := lines[..n];
    if k < |Side(init, other)| {
      i := SideHasNoOther(init, other, k);
      assert init[..i] == lines[..i];
    } else {
      i := n;
    }
  }

  lemma {:induction false} StartsKeepPos(lines: seq<LineValue>, k: nat)
    requires k < |lines|
    ensures Starts(lines)[k].pos == lines[k].pos
  {
    if k < |lines| - 1 {
      StartsKeepPos(lines[..|lines| - 1], k);
    }
  }

  /** A context line is on both sides, and both record the same position for it. */
  lemma {:induction false} ContextKeepsItsPosition(lines: seq<LineValue>, i: nat)
    requires i < |lines| && !Marked(lines[i], '-') && !Marked(lines[i], '+')
    ensures var (minus, plus) := (Side(lines, '+'), Side(lines, '-'));
      && Rank(lines, '+', i) < |minus| && Rank(lines, '-', i) < |plus|
      && VersionOf(minus).lines[Rank(lines, '+', i)].pos == lines[i].pos
      && VersionOf(plus).lines[Rank(lines, '-', i)].pos == lines[i].pos
  {
    SideHasLine(lines, '+', i);
    SideHasLine(lines, '-', i);
    StartsKeepPos(Side(lines, '+'), Rank(lines, '+', i));
    StartsKeepPos(Side(lines, '-'), Rank(lines, '-', i));
  }

  /** Dropping a mark keeps a line cut from the same source. */
  lemma {:induction false} EditedIsCutFrom(l: LineValue, src: string, base: nat)
    requires CutFrom(l, src, base)
    ensures CutFrom(Edited(l), src, base)
  {
    if Marked(l, '-') || Marked(l, '+') {
      var lo, hi := l.pos - base, l.pos - base + |l.text|;
      assert src[lo + 1..hi] == src[lo..hi][1..];
    }
  }

  /** Byte j of line k of a version stands in the source where the recorded position points. */
  ghost predicate PointsBack(v: Version, src: string, base: nat, k: nat, j: nat) {
    && k < |v.lines| && v.lines[k].offset + j < |v.contents|
    && base <= v.lines[k].pos + j < base + |src|
    && v.contents[v.lines[k].offset + j] == src[v.lines[k].pos + j - base]
  }

  ghost predicate KeepsBytes(lines: seq<LineValue>, other: char, src: string, base: nat) {
    forall k, j | 0 <= k < |Side(lines, other)| && 0 <= j < |Side(lines, other)[k].text| ::
      PointsBack(VersionOf(Side(lines, other)), src, base, k, j)
  }

  /**
   * On either side, every byte of a line points back at itself: the byte at `offset + j` of the contents stands in the
   * patch file at the recorded position plus j.
   */
  lemma {:induction false} SplitKeepsBytes(lines: seq<LineValue>, other: char, src: string, base: nat)
    requires forall i | 0 <= i < |lines| :: CutFrom(lines[i], src, base)
    ensures KeepsBytes(lines, other, src, base)
  {
    hide Side, VersionOf, CutFrom, Edited, Marked, Rank;
    var side := Side(lines, other);
    forall k, j | 0 <= k < |side| && 0 <= j < |side[k].text| ensures PointsBack(VersionOf(side), src, base, k, j) {
      var i := SideHasNoOther(lines, other, k);
      SideHasLine(lines, other, i);
      EditedIsCutFrom(lines[i], src, base);
      BytesKeepTheirPositions(side, src, base, k, j);
    }
  }
}
