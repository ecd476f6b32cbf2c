/** The parts together: a change applied at one place of a file, and positions on their way through the parsers. */
module EndToEnd {
  import opened Wrappers
  import opened Data
  import opened Tree
  import opened Engine
  import C = ConnectDots
  import Capture
  import Elision
  import NoOp
  import Unify
  import Filling
  import Positions
  import AstDiff
  import SectionSplitter
  import SectionRoundTrip
  import P = PatchSides
  import Augment

  // ------------------------------------------------------------- one change, one place

  datatype Outcome = NoMatch | Failed | Replaced(v: Value)

  /** The same code with its `...`s in the same lines and columns on both sides, each in a place of its own. */
  ghost predicate SameCodeInPlace(minus: Value, plus: Value) {
    && WellTyped(minus) && WellTyped(plus) && Eq(minus, plus)
    && var (lhs, rhs) := (DotsOf(minus), DotsOf(plus));
      |lhs| == |rhs| && C.DistinctPlaces(lhs) && forall k | 0 <= k < |lhs| :: C.SamePlace(lhs[k], rhs[k])
  }

  /** Each `...` of the plus side continues one of the minus side, unless one of them stands before the whole minus side. */
  ghost predicate Associated(minus: Value, plus: Value, assoc: Assoc) {
    var (lhs, rhs) := (DotsOf(minus), DotsOf(plus));
    && (forall a | a in assoc :: a in rhs && C.LastUpTo(lhs, a, assoc[a]))
    && (C.SomePrecedes(rhs, lhs) ==> assoc == map[])
    && (!C.SomePrecedes(rhs, lhs) && C.NoRepeats(rhs) ==> C.Associates(lhs, rhs, assoc))
  }

  /** Each `...` of a side with itself. */
  function Own(dots: seq<Pos>): Assoc {
    map p | p in dots :: p
  }

  /** With the captures of d filled in, the minus side is the node: d says how it matches. */
  ghost predicate Explains(meta: Meta, minus: Value, d: Env, v: Value) {
    Filling.Fillable(meta, minus, d, Own(DotsOf(minus))) && Eq(Filling.Fill(meta, minus, d, Own(DotsOf(minus))), v)
  }

  /** The node is replaced by the plus side, filled in with the captures of d, or the change fails where that cannot be done. */
  ghost predicate FillsIn(meta: Meta, plus: Value, d: Env, assoc: Assoc, r: Outcome) {
    match r
    case NoMatch => false
    case Failed => !Filling.Fillable(meta, plus, d, assoc)
    case Replaced(w) => Filling.Fillable(meta, plus, d, assoc) && Eq(w, Filling.Fill(meta, plus, d, assoc))
  }

  /**
   * The node is rewritten as a term: by the plus side under whatever substitution makes the minus side equal to it. The change
   * fails exactly where the plus side mentions a metavariable that the minus side does not.
   */
  ghost predicate Rewrites(meta: Meta, minus: Value, plus: Value, v: Value, r: Outcome) {
    match r
    case NoMatch => Unify.Canonical(v) ==> forall s :: !Unify.Solves(meta, minus, s, v)
    case Failed => (exists s :: Unify.Solves(meta, minus, s, v)) && !(Unify.Vars(meta, plus) <= Unify.Vars(meta, minus))
    case Replaced(w) =>
      && (exists s :: Unify.Solves(meta, minus, s, v))
      && Unify.Vars(meta, plus) <= Unify.Vars(meta, minus)
      && forall s | Unify.Solves(meta, minus, s, v) :: Eq(w, Unify.Apply(meta, plus, s))
  }

  lemma {:induction false} ConnectionsAssociate(minus: Value, plus: Value, assoc: Assoc, v: C.Verdict)
    requires var (lhs, rhs) := (DotsOf(minus), DotsOf(plus));
      && (v.Connected? <==> !C.SomePrecedes(rhs, lhs) && C.NoRepeats(rhs))
      && (v.NoPartner? <==> C.SomePrecedes(rhs, lhs))
      && (v.Connected? ==> C.Associates(lhs, rhs, assoc))
      && (v.NoPartner? ==> assoc == map[])
      && forall a | a in assoc :: a in rhs && C.LastUpTo(lhs, a, assoc[a])
    ensures Associated(minus, plus, assoc)
  {
    hide DotsOf, C.SomePrecedes, C.NoRepeats, C.Associates, C.LastUpTo;
  }

  lemma {:induction false} SameByLookup(d: Env, d2: Env)
    requires forall k :: d2.Value(k) == d.Value(k)
    ensures NoOp.SameAnswers(d, d2)
  {
  }

  /** What the replacer's answer means for the node. */
  function OutcomeOf(give: Option<Value>): Outcome {
    match give case Some(w) => Replaced(w) case None => Failed
  }

  lemma {:induction false} ItFillsIn(meta: Meta, minus: Value, plus: Value, v: Value, d: Env, assoc: Assoc, region: Pos)
    requires WellTyped(plus) && Capture.Plain(v) && region.IsValid() && Match(CompileM(meta, minus), v, New).Some?
    requires NoOp.SameAnswers(Match(CompileM(meta, minus), v, New).value, d)
    ensures FillsIn(meta, plus, Match(CompileM(meta, minus), v, New).value, assoc,
                    OutcomeOf(Replace(CompileR(meta, plus), d, assoc, region)))
  {
    hide Match, CompileM, Replace, CompileR, WellTyped, Eq, Capture.Plain, Filling.Fill, Filling.Fillable;
    var d0 := Match(CompileM(meta, minus), v, New).value;
    assert Capture.PlainEnv(d0) by { Capture.MatchCapturesPlain(CompileM(meta, minus), v, New); }
    forall x ensures Capture.Bound(d, x) == Capture.Bound(d0, x) { assert d.Value(MetaKey(x)) == d0.Value(MetaKey(x)); }
    Filling.ReplaceFills(meta, plus, d, assoc, region);
    Filling.SameAnswersSameFilling(meta, plus, d0, d, assoc);
  }

  lemma {:induction false} CapturesExplain(meta: Meta, minus: Value, v: Value)
    requires WellTyped(minus) && Elision.Distinct(DotsOf(minus)) && Capture.Plain(v) && Unify.InPlace(minus, v)
    requires Match(CompileM(meta, minus), v, New).Some?
    ensures Explains(meta, minus, Match(CompileM(meta, minus), v, New).value, v)
  {
    hide Match, CompileM, Replace, CompileR, WellTyped, Eq, Capture.Plain, Filling.Fill, Filling.Fillable, DotsOf, Unify.InPlace;
    var d, own, pos := Match(CompileM(meta, minus), v, New).value, Own(DotsOf(minus)), At(0, 0, 0);
    assert Eq(minus, minus) by { EqRefl(minus); }
    assert NoOp.Linked(own, DotsOf(minus), DotsOf(minus));
    assert Capture.PlainEnv(d) by { Capture.MatchCapturesPlain(CompileM(meta, minus), v, New); }
    NoOp.SamePatchIsNoOp(meta, minus, minus, v, d, own, pos);
    Filling.ReplaceFills(meta, minus, d, own, pos);
    var w := Replace(CompileR(meta, minus), d, own, pos).value;
    EqSym(w, Filling.Fill(meta, minus, d, own));
    EqTrans(Filling.Fill(meta, minus, d, own), w, v);
  }

  lemma {:induction false} ItRewrites(meta: Meta, minus: Value, plus: Value, v: Value, d: Env, assoc: Assoc, region: Pos)
    requires Capture.Plain(minus) && Capture.Plain(plus) && Capture.Plain(v) && Unify.InPlace(minus, v) && region.IsValid()
    requires Match(CompileM(meta, minus), v, New).Some?
    requires NoOp.SameAnswers(Match(CompileM(meta, minus), v, New).value, d)
    ensures Rewrites(meta, minus, plus, v, OutcomeOf(Replace(CompileR(meta, plus), d, assoc, region)))
  {
    hide Match, CompileM, Replace, CompileR, Eq, Capture.Plain, Unify.InPlace, Unify.Solves, Unify.Vars, Unify.Apply;
    Unify.MatchIsSound(meta, minus, v);
    Filling.PatchesRewriteTerms(meta, minus, plus, v, d, assoc, region);
  }

  lemma {:induction false} PlacesSucceed(minus: Value, plus: Value)
    requires SameCodeInPlace(minus, plus)
    ensures !C.SomePrecedes(DotsOf(plus), DotsOf(minus)) && C.NoRepeats(DotsOf(plus))
  {
    var lhs, rhs := DotsOf(minus), DotsOf(plus);
    C.SamePlacesSucceed(lhs, rhs);
    forall i, j | 0 <= i < j < |rhs| ensures rhs[i] != rhs[j] {
      assert C.SamePlace(lhs[i], rhs[i]) && C.SamePlace(lhs[j], rhs[j]) && !C.SamePlace(lhs[i], lhs[j]);
    }
  }

  lemma {:induction false} PlacesAreLinked(minus: Value, plus: Value, assoc: Assoc)
    requires SameCodeInPlace(minus, plus) && Associated(minus, plus, assoc)
    ensures NoOp.Linked(assoc, DotsOf(minus), DotsOf(plus)) && Elision.Distinct(DotsOf(minus))
    ensures WellTyped(minus) && WellTyped(plus) && Eq(minus, plus)
  {
    hide C.Associates, C.SomePrecedes, C.NoRepeats, WellTyped, Eq, DotsOf;
    var lhs, rhs := DotsOf(minus), DotsOf(plus);
    PlacesSucceed(minus, plus);
    forall i | 0 <= i < |rhs| ensures Partner(assoc, rhs[i]) == lhs[i] { C.SamePlacesAreConnected(lhs, rhs, assoc, i); }
    C.PlacesAreDistinct(lhs);
  }

  lemma {:induction false} RebuiltInPlace(meta: Meta, minus: Value, plus: Value, v: Value, d: Env, assoc: Assoc, region: Pos)
    requires SameCodeInPlace(minus, plus) && Associated(minus, plus, assoc) && region.IsValid()
    requires Capture.Plain(v) && Unify.InPlace(minus, v) && Match(CompileM(meta, minus), v, New).Some?
    requires NoOp.SameAnswers(Match(CompileM(meta, minus), v, New).value, d)
    ensures var r := Replace(CompileR(meta, plus), d, assoc, region);
      r.Some? && Eq(r.value, v) && (!v.Nil? ==> NoOp.Same(r.value, v))
  {
    hide Match, CompileM, Replace, CompileR, Eq, DotsOf, SameCodeInPlace, Associated, Unify.InPlace, Capture.Plain, NoOp.Same;
    PlacesAreLinked(minus, plus, assoc);
    NoOp.SamePatchIsNoOp(meta, minus, plus, v, d, assoc, region);
  }

  /** Ordinary code in the place of the pattern, in a region of the file. */
  ghost predicate Stands(minus: Value, v: Value, region: Pos) {
    Capture.Plain(v) && Unify.InPlace(minus, v) && region.IsValid()
  }

  /** What happens where the minus side matches, whatever the two sides are. */
  lemma {:induction false} MatchedIsFilledIn(meta: Meta, minus: Value, plus: Value, v: Value, d: Env, assoc: Assoc, region: Pos)
    requires Match(CompileM(meta, minus), v, New).Some? && Stands(minus, v, region)
    requires NoOp.SameAnswers(Match(CompileM(meta, minus), v, New).value, d)
    ensures var d0 := Match(CompileM(meta, minus), v, New).value;
      var r := OutcomeOf(Replace(CompileR(meta, plus), d, assoc, region));
      && (WellTyped(plus) ==> FillsIn(meta, plus, d0, assoc, r))
      && (WellTyped(minus) && Elision.Distinct(DotsOf(minus)) ==> Explains(meta, minus, d0, v))
  {
    hide Match, CompileM, Replace, CompileR, WellTyped, DotsOf, FillsIn, Explains, OutcomeOf;
    if WellTyped(plus) { ItFillsIn(meta, minus, plus, v, d, assoc, region); }
    if WellTyped(minus) && Elision.Distinct(DotsOf(minus)) { CapturesExplain(meta, minus, v); }
  }

  /** What happens there if neither side has a `...`. */
  lemma {:induction false} PlainIsRewritten(meta: Meta, minus: Value, plus: Value, v: Value, d: Env, assoc: Assoc, region: Pos)
    requires Match(CompileM(meta, minus), v, New).Some? && Stands(minus, v, region)
    requires NoOp.SameAnswers(Match(CompileM(meta, minus), v, New).value, d)
    requires Capture.Plain(minus) && Capture.Plain(plus)
    ensures var r := OutcomeOf(Replace(CompileR(meta, plus), d, assoc, region));
      && Rewrites(meta, minus, plus, v, r)
      && (r.Replaced? && Positions.PlacesDiffer(meta, minus) ==>
           Positions.CarriesPositions(meta, minus, plus, v, r.v, region))
  {
    hide Match, CompileM, Replace, CompileR, Capture.Plain, Rewrites, Positions.PlacesDiffer, Positions.CarriesPositions;
    hide Unify.InPlace, NoOp.SameAnswers;
    ItRewrites(meta, minus, plus, v, d, assoc, region);
    if Replace(CompileR(meta, plus), d, assoc, region).Some? && Positions.PlacesDiffer(meta, minus) {
      Positions.PositionsCarryOver(meta, minus, plus, v, d, assoc, region);
    }
  }

  /** The node is rebuilt, if it matches. */
  ghost predicate Rebuilds(v: Value, r: Outcome) {
    r.NoMatch? || (r.Replaced? && Eq(r.v, v) && (!v.Nil? ==> NoOp.Same(r.v, v)))
  }

  lemma {:induction false} Unmatched(meta: Meta, minus: Value, plus: Value, v: Value, region: Pos)
    requires Stands(minus, v, region) && Match(CompileM(meta, minus), v, New).None?
    ensures Capture.Plain(minus) ==> Rewrites(meta, minus, plus, v, NoMatch)
    ensures Rebuilds(v, NoMatch)
  {
    hide Match, CompileM, Capture.Plain, Unify.InPlace, Unify.Solves, Unify.Canonical;
    if Capture.Plain(minus) && Unify.Canonical(v) {
      Unify.MatchingIsUnification(meta, minus, v);
    }
  }

  lemma {:induction false} ItRebuilds(meta: Meta, minus: Value, plus: Value, v: Value, d: Env, assoc: Assoc, region: Pos)
    requires Match(CompileM(meta, minus), v, New).Some? && Stands(minus, v, region)
    requires NoOp.SameAnswers(Match(CompileM(meta, minus), v, New).value, d)
    requires SameCodeInPlace(minus, plus) && Associated(minus, plus, assoc)
    ensures Rebuilds(v, OutcomeOf(Replace(CompileR(meta, plus), d, assoc, region)))
  {
    hide Match, CompileM, Replace, CompileR, Eq, SameCodeInPlace, Associated, Unify.InPlace, Capture.Plain, NoOp.Same;
    RebuiltInPlace(meta, minus, plus, v, d, assoc, region);
  }

  /**
   * compileChange, and for one node of the file the match, the index of its captures and the replacement. What the minus side
   * captures is filled into the plus side; a change without `...` rewrites terms; a change whose sides are the same code
   * cannot fail, and rebuilds whatever it matches.
   */
  method ApplyChange(meta: Meta, minus: Value, plus: Value, v: Value, region: Pos) returns (r: Outcome, assoc: Assoc)
    ensures r.NoMatch? <==> Match(CompileM(meta, minus), v, New).None?
    ensures Associated(minus, plus, assoc)
    ensures Stands(minus, v, region) && WellTyped(plus) && !r.NoMatch? ==>
      FillsIn(meta, plus, Match(CompileM(meta, minus), v, New).value, assoc, r)
    ensures Stands(minus, v, region) && WellTyped(minus) && Elision.Distinct(DotsOf(minus)) && !r.NoMatch? ==>
      Explains(meta, minus, Match(CompileM(meta, minus), v, New).value, v)
    ensures Stands(minus, v, region) && Capture.Plain(minus) && Capture.Plain(plus) ==> Rewrites(meta, minus, plus, v, r)
    ensures Stands(minus, v, region) && Capture.Plain(minus) && Capture.Plain(plus) && r.Replaced? ==>
      (Positions.PlacesDiffer(meta, minus) ==> Positions.CarriesPositions(meta, minus, plus, v, r.v, region))
    ensures Stands(minus, v, region) && SameCodeInPlace(minus, plus) ==> Rebuilds(v, r)
  {
    hide Match, CompileM, Replace, CompileR, WellTyped, Eq, DotsOf, SameCodeInPlace, Associated, FillsIn, Explains, Rewrites;
    hide C.Associates, C.SomePrecedes, C.NoRepeats, C.LastUpTo, C.Precedes, C.Monotone, Stands, Rebuilds;
    hide Capture.Plain, NoOp.SameAnswers, Positions.PlacesDiffer, Positions.CarriesPositions, Elision.Distinct;
    var verdict;
    assoc, verdict := C.ConnectDots(DotsOf(minus), DotsOf(plus));  // the verdict is not looked at
    ConnectionsAssociate(minus, plus, assoc, verdict);
    match Match(CompileM(meta, minus), v, New) {
      case None =>
        r := NoMatch;
        if Stands(minus, v, region) { Unmatched(meta, minus, plus, v, region); }
      case Some(d) =>
        var indexed := Index(d);
        SameByLookup(d, indexed);
        r := OutcomeOf(Replace(CompileR(meta, plus), indexed, assoc, region));
        if Stands(minus, v, region) {
          MatchedIsFilledIn(meta, minus, plus, v, indexed, assoc, region);
          if Capture.Plain(minus) && Capture.Plain(plus) { PlainIsRewritten(meta, minus, plus, v, indexed, assoc, region); }
          if SameCodeInPlace(minus, plus) { ItRebuilds(meta, minus, plus, v, indexed, assoc, region); }
        }
    }
  }

  /** Then the diff of the tree before and after shows nothing. The nodes that are visited are not nil. */
  lemma {:induction false} SamePatchShowsNoDifference(
      meta: Meta, minus: Value, plus: Value, v: Value, d: Env, assoc: Assoc, region: Pos, after: Value)
    requires SameCodeInPlace(minus, plus) && Associated(minus, plus, assoc) && region.IsValid()
    requires Capture.Plain(v) && Unify.InPlace(minus, v) && Match(CompileM(meta, minus), v, New).Some?
    requires NoOp.SameAnswers(Match(CompileM(meta, minus), v, New).value, d)
    requires Replace(CompileR(meta, plus), d, assoc, region) == Some(after) && !v.Nil?
    ensures AstDiff.SnapEq(AstDiff.Snapshot(v), AstDiff.Snapshot(after))
  {
    hide Match, CompileM, Replace, CompileR, Capture.DotsFree, DotsOf, Associated, SameCodeInPlace, WellTyped, Eq;
    RebuiltInPlace(meta, minus, plus, v, d, assoc, region);
    EqSym(after, v);
    AstDiff.EqualTreesEqualSnapshots(v, after);
  }

  // -------------------------------------------------------- one byte, from file to tree and back

  /** The recorded line that a byte of the contents belongs to: the last one that does not start behind it. */
  lemma {:induction false} LineInForce(lines: seq<P.LineValue>, k: nat, j: nat, m: nat)
    requires k < |lines| && j <= |lines[k].text| && m < |lines|
    ensures var v := P.VersionOf(lines);
      v.lines[m].offset <= v.lines[k].offset + j <==> m <= k
  {
    hide P.VersionOf;
    P.LinesAreContiguous(lines, k);
    if m < k {
      P.OffsetsIncrease(lines, m, k);
    } else if k + 1 < m {
      P.OffsetsIncrease(lines, k + 1, m);
    }
  }

  lemma {:induction false} PatchIsCut(abc: SectionSplitter.Alphabet, content: string, base: nat, c: SectionSplitter.Change)
    requires c in SectionSplitter.SplitProgram(abc, content, base).0
    ensures forall i | 0 <= i < |c.patch| :: P.CutFrom(c.patch[i], content, base)
  {
    hide SectionSplitter.SplitProgram, P.CutFrom;
    SectionRoundTrip.SplitLinesPointAtTheirText(abc, content, base, c);
    assert forall i | 0 <= i < |c.patch| :: c.patch[i] in c.patch;
  }

  /** From the new offset of b, adjusting leads back to b, in whatever order the adjustments are kept. */
  ghost predicate LeadsBack(augs: seq<Augment.Augmentation>, b: nat) {
    forall adjs, off | multiset(adjs) == multiset(Augment.Adjustments(augs))
                       && Augment.Undone(adjs, Augment.NewOffset(augs, b), off) :: off == b
  }

  lemma {:induction false} AdjustingLeadsBack(size: nat, augs: seq<Augment.Augmentation>, b: nat)
    requires Augment.Ordered(size, augs)
    ensures LeadsBack(augs, b)
  {
    hide Augment.Ordered, Augment.Adjustments, Augment.Undone, Augment.NewOffset;
    forall adjs, off | multiset(adjs) == multiset(Augment.Adjustments(augs))
                       && Augment.Undone(adjs, Augment.NewOffset(augs, b), off) ensures off == b
    {
      Augment.AdjustingUndoesRewriting(size, augs, adjs, b, off);
    }
  }

  /**
   * Whatever the patch file holds: take a byte of a line on either side of any change, in the text that is given to the Go
   * parser. Adjusting its offset there and looking up the line at that offset gives the position in the patch file where
   * this very byte stands.
   */
  lemma {:induction false} BytesComeFromThePatchFile(
      abc: SectionSplitter.Alphabet, content: string, base: nat, c: SectionSplitter.Change, other: char, k: nat, j: nat,
      augs: seq<Augment.Augmentation>)
    requires c in SectionSplitter.SplitProgram(abc, content, base).0
    requires k < |P.Side(c.patch, other)| && j < |P.Side(c.patch, other)[k].text|
    ensures var v := P.VersionOf(P.Side(c.patch, other));
      var b := v.lines[k].offset + j;
      && base <= v.lines[k].pos + j < base + |content|
      && (forall m | 0 <= m < |v.lines| :: v.lines[m].offset <= b <==> m <= k)
      && (Augment.Ordered(|v.contents|, augs) && Augment.Outside(augs, b) ==>
           && Augment.NewOffset(augs, b) < |Augment.Rewritten(v.contents, augs)|
           && Augment.Rewritten(v.contents, augs)[Augment.NewOffset(augs, b)] == content[v.lines[k].pos + j - base]
           && LeadsBack(augs, b))
  {
    hide SectionSplitter.SplitProgram, P.Side, P.VersionOf, P.CutFrom, Augment.Ordered, Augment.Outside;
    hide Augment.NewOffset, Augment.Rewritten, LeadsBack;
    var side := P.Side(c.patch, other);
    var v := P.VersionOf(side);
    var b := v.lines[k].offset + j;
    PatchIsCut(abc, content, base, c);
    P.SplitKeepsBytes(c.patch, other, content, base);
    assert P.PointsBack(v, content, base, k, j);
    forall m | 0 <= m < |v.lines| ensures v.lines[m].offset <= b <==> m <= k { LineInForce(side, k, j, m); }
    if Augment.Ordered(|v.contents|, augs) && Augment.Outside(augs, b) {
      Augment.BytesAreKept(v.contents, augs, b);
      AdjustingLeadsBack(|v.contents|, augs, b);
    }
  }
}
