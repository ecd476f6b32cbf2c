/**
 * Patches that are lists of statements (internal/engine/stmt_list.go): they match anywhere inside a statement list, and
 * the statement around the list is taken apart and rebuilt.
 */
module StmtList {
  import opened Wrappers
  import opened Data
  import opened Tree
  import opened Engine
  import opened Capture
  import opened Elision
  import opened NoOp
  import Unify
  import I = Independence

  /** Where a node keeps its statements. */
  function StmtsIndex(t: Type): Option<nat> {
    if t == BLOCK_STMT then Some(1) else if t == CASE_CLAUSE || t == COMM_CLAUSE then Some(3) else None
  }

  /** `...` as a statement. */
  function DotsStmt(pos: Pos): Value {
    Iface(STMT, Ptr(PtrT(EXPR_STMT), Struct(EXPR_STMT, [
      Iface(EXPR, Ptr(PtrT(DOTS), Struct(DOTS, [Nil(EXPR), PosV(pos)])))])))
  }

  /** The list that is compiled: a `...` at the start and one at the end of the patch around the statements. */
  function Wrapped(start: Pos, end: Pos, stmts: seq<Value>): Value {
    if stmts == [] then Nil(STMT_SLICE) else Slice(STMT_SLICE, [DotsStmt(start)] + stmts + [DotsStmt(end)])
  }

  function MatchContainer(m: Matcher, v: Value, d: Env): Option<Env> {
    if v.Ptr? && v.elem.Struct? && StmtsIndex(v.elem.t).Some? && StmtsIndex(v.elem.t).value < |v.elem.fields| then
      var idx := StmtsIndex(v.elem.t).value;
      Match(m, v.elem.fields[idx], With(d, StmtListKey, Around(v.elem.t, idx, OthersOf(v.elem.fields, idx))))
    else
      None
  }

  function ReplaceContainer(r: Replacer, d: Env, assoc: Assoc, pos: Pos): Option<Value> {
    match d.Value(StmtListKey)
    case Some(Around(t, idx, others)) => (
      match Replace(r, d, assoc, pos)
      case Some(stmts) => Rebuild(Around(t, idx, others), stmts)
      case None => None)
    case _ => None
  }

  lemma {:induction false} DotsStmtIsDots(pos: Pos)
    ensures WellTyped(DotsStmt(pos)) && TypeOf(DotsStmt(pos)) == STMT && DotsItem(DotsStmt(pos)) == Some(pos)
    ensures Same(DotsStmt(pos), DotsStmt(pos))
  {
    assert WellTyped(Struct(DOTS, [Nil(EXPR), PosV(pos)]));
    assert WellTyped(Struct(EXPR_STMT, [Iface(EXPR, Ptr(PtrT(DOTS), Struct(DOTS, [Nil(EXPR), PosV(pos)])))]));
    EqRefl(DotsStmt(pos));
  }

  ghost predicate Statements(stmts: seq<Value>) {
    forall i | 0 <= i < |stmts| :: WellTyped(stmts[i]) && TypeOf(stmts[i]) == STMT
  }

  lemma {:induction false} WrappedIsWellTyped(start: Pos, end: Pos, stmts: seq<Value>)
    requires Statements(stmts)
    ensures WellTyped(Wrapped(start, end, stmts)) && TypeOf(Wrapped(start, end, stmts)) == STMT_SLICE
  {
    hide Eq;
    DotsStmtIsDots(start);
    DotsStmtIsDots(end);
    hide DotsStmt, DotsItem;
  }

  lemma {:induction false} WrappedAreSame(start: Pos, end: Pos, minus: seq<Value>, plus: seq<Value>)
    requires Statements(minus) && Statements(plus) && EqAll(minus, plus)
    ensures Same(Wrapped(start, end, minus), Wrapped(start, end, plus))
  {
    DotsStmtIsDots(start);
    DotsStmtIsDots(end);
    WrappedIsWellTyped(start, end, plus);
    if minus != [] {
      var ms, ps := [DotsStmt(start)] + minus + [DotsStmt(end)], [DotsStmt(start)] + plus + [DotsStmt(end)];
      hide DotsStmt, DotsItem, WellTyped, Eq;
      forall i | 0 <= i < |ms| ensures Same(ms[i], ps[i]) {
        if 0 < i <= |minus| { assert ms[i] == minus[i - 1] && ps[i] == plus[i - 1]; }
      }
      SameSliceOf(ms, Slice(STMT_SLICE, ps));
    }
  }

  lemma {:induction false} OneMore<T>(x: T, rest: seq<T>, e: T)
    requires rest != []
    ensures (rest + [e])[1..] == rest[1..] + [e] && (rest + [e])[0] == rest[0]
    ensures [x] + (rest + [e])[1..] == ([x] + rest[1..]) + [e]
  {
  }

  /** A `...` at the end of a list makes the last section empty. */
  lemma {:induction false} DotsAtEnd(meta: Meta, stmts: seq<Value>, dots: Value)
    requires DotsItem(dots).Some?
    ensures SectionsM(meta, stmts + [dots]) == SectionsM(meta, stmts) + [Section([])]
    decreases |stmts|
  {
    hide DotsItem, CompileM;
    var all := stmts + [dots];
    if stmts == [] {
      assert all[1..] == [];
    } else {
      assert all[0] == stmts[0] && all[1..] == stmts[1..] + [dots];
      DotsAtEnd(meta, stmts[1..], dots);
      var rest := SectionsM(meta, stmts[1..]);
      assert SectionsM(meta, all) ==
        if DotsItem(stmts[0]).Some? then [Section([])] + (rest + [Section([])])
        else [Section([CompileM(meta, stmts[0])] + rest[0].items)] + (rest + [Section([])])[1..];
      hide SectionsM;
      OneMore(Section([CompileM(meta, stmts[0])] + rest[0].items), rest, Section([]));
      OneMore(Section([]), [Section([])] + rest, Section([]));
    }
  }

  lemma {:induction false} WrappedListSections(meta: Meta, start: Pos, end: Pos, stmts: seq<Value>)
    ensures SectionsM(meta, [DotsStmt(start)] + stmts + [DotsStmt(end)]) ==
      [Section([])] + SectionsM(meta, stmts) + [Section([])]
  {
    var items := [DotsStmt(start)] + stmts + [DotsStmt(end)];
    DotsStmtIsDots(start);
    hide DotsStmt, DotsItem, WellTyped, Eq, CompileM;
    assert items[0] == DotsStmt(start) && items[1..] == stmts + [DotsStmt(end)];
    assert DotsItem(DotsStmt(end)).Some? by { DotsStmtIsDots(end); }
    DotsAtEnd(meta, stmts, DotsStmt(end));
    var tail := SectionsM(meta, stmts) + [Section([])];
    assert SectionsM(meta, items) == [Section([])] + tail;
    assert [Section([])] + tail == [Section([])] + SectionsM(meta, stmts) + [Section([])];
  }

  lemma {:induction false} WrappedCompiles(meta: Meta, start: Pos, end: Pos, stmts: seq<Value>) returns (dots: seq<Pos>)
    requires stmts != []
    ensures |dots| == |SectionsM(meta, stmts)| + 1
    ensures CompileM(meta, Wrapped(start, end, stmts)) ==
      SliceDotsM([Section([])] + SectionsM(meta, stmts) + [Section([])], dots)
  {
    var items := [DotsStmt(start)] + stmts + [DotsStmt(end)];
    WrappedListSections(meta, start, end, stmts);
    hide SectionsM, DotsStmt;
    dots := DotsIn(items);
  }

  lemma {:induction false} MatchWrapped(meta: Meta, start: Pos, end: Pos, stmts: seq<Value>, block: seq<Value>, d: Env)
    returns (dots: seq<Pos>)
    requires stmts != []
    ensures |dots| == |SectionsM(meta, stmts)| + 1
    ensures Match(CompileM(meta, Wrapped(start, end, stmts)), Slice(STMT_SLICE, block), d) ==
      MatchElided([Section([])] + SectionsM(meta, stmts) + [Section([])], dots, block, d)
  {
    dots := WrappedCompiles(meta, start, end, stmts);
    hide CompileM, SectionsM, Wrapped, MatchElided;
  }

  lemma {:induction false} EmptyAtEnd(sections: seq<Section<Matcher>>)
    ensures var (rest, k) := (sections + [Section([])], FirstEmpty(sections));
      FirstEmpty(rest) == k && rest[..k] == sections[..k] && (AllEmpty(rest[k..]) <==> AllEmpty(sections[k..])) && k < |rest|
  {
    var rest, k := sections + [Section([])], FirstEmpty(sections);
    assert rest[..k] == sections[..k] && rest[k..] == sections[k..] + [Section([])];
    FirstEmptyIs(rest, k);
    assert forall i | 0 <= i < |sections[k..]| :: rest[k..][i] == sections[k..][i];
  }

  lemma {:induction false} NothingFirst(sections: seq<Section<Matcher>>, block: seq<Value>, d: Env)
    ensures PlaceableBehind([], sections, block, d) <==> Placeable(sections, block, 0, d)
    ensures Independent(sections, d) ==> IndependentBehind([], sections, d)
  {
    hide Placeable;
  }

  /**
   * When a statement patch matches a block: exactly when its sections occur in the block's statements, in order and without
   * overlap, and two `...`s side by side are followed by nothing but `...`s. The sections up to there must be independent.
   */
  lemma {:induction false} StatementsAreFoundAnywhere(
      meta: Meta, start: Pos, end: Pos, stmts: seq<Value>, block: seq<Value>, d: Env)
    requires stmts != [] && Independent(SectionsM(meta, stmts)[..FirstEmpty(SectionsM(meta, stmts))], d)
    ensures var (sections, k) := (SectionsM(meta, stmts), FirstEmpty(SectionsM(meta, stmts)));
      Match(CompileM(meta, Wrapped(start, end, stmts)), Slice(STMT_SLICE, block), d).Some? <==>
        Placeable(sections[..k], block, 0, d) && AllEmpty(sections[k..])
  {
    hide Match, CompileM, SectionsM, Wrapped, Independent, Placeable, MatchElided, OnlyEndsAt, AllEmpty;
    var dots := MatchWrapped(meta, start, end, stmts, block, d);
    var sections := SectionsM(meta, stmts);
    var rest, k := sections + [Section([])], FirstEmpty(sections);
    EmptyAtEnd(sections);
    assert [Section([])] + rest == [Section([])] + sections + [Section([])];
    NothingFirst(rest[..k], block, d);
    ElisionIsPlacement([], rest, dots, block, d);
  }

  /** The patch matches the block exactly when its sections can be placed there. */
  ghost predicate FindsStatements(meta: Meta, start: Pos, end: Pos, stmts: seq<Value>, block: seq<Value>, d: Env) {
    Match(CompileM(meta, Wrapped(start, end, stmts)), Slice(STMT_SLICE, block), d).Some? <==>
      Placeable(SectionsM(meta, stmts), block, 0, d)
  }

  lemma {:induction false} NoFirstPiece(meta: Meta)
    ensures I.ListOf(STMT, []) && CompileAllM(meta, []) == [] && {} + I.Mentioned(meta, []) == {}
  {
    I.ListParts(STMT, []);
  }

  /**
   * Which statement patches can be trusted: those of ordinary code, no two `...`s side by side, match every block in which
   * their sections can be placed if and only if no two sections share a metavariable.
   */
  lemma {:induction false} StatementsAreFoundExactlyWhenSeparate(meta: Meta, start: Pos, end: Pos, stmts: seq<Value>)
    requires stmts != [] && I.ListsOf(STMT, I.Pieces(stmts))
    ensures I.Separate(meta, I.Pieces(stmts), {}) <==>
      forall d: Env, block | I.Binds(d, {}) && PlainEnv(d) && I.ListOf(STMT, block) ::
        FindsStatements(meta, start, end, stmts, block, d)
  {
    hide Match, CompileM, SectionsM, Wrapped, MatchElided, Placeable, PlainEnv, I.ListOf, I.Compiled, I.Separate, CompileAllM;
    hide PlaceableBehind, I.Binds;
    var pieces := I.Pieces(stmts);
    I.PiecesAreSections(meta, stmts);
    NoFirstPiece(meta);
    if I.Separate(meta, pieces, {}) {
      forall d: Env, block | I.Binds(d, {}) && PlainEnv(d) && I.ListOf(STMT, block)
        ensures FindsStatements(meta, start, end, stmts, block, d)
      {
        var dots := MatchWrapped(meta, start, end, stmts, block, d);
        I.SearchIsCompleteExactly(meta, STMT, [], pieces, {});
        assert I.Finds(meta, [], pieces, dots, block, d);
        NothingFirst(SectionsM(meta, stmts), block, d);
      }
    } else {
      var block, d := I.SharedIsMissed(meta, STMT, [], pieces, {});
      var dots := MatchWrapped(meta, start, end, stmts, block, d);
      NothingFirst(SectionsM(meta, stmts), block, d);
      assert !FindsStatements(meta, start, end, stmts, block, d);
    }
  }

  lemma {:induction false} SomethingIsThere(meta: Meta, stmts: seq<Value>, i: nat)
    requires i < |stmts| && DotsItem(stmts[i]).None?
    ensures !AllEmpty(SectionsM(meta, stmts))
    decreases |stmts|
  {
    hide CompileM, DotsItem;
    var rest, sections := SectionsM(meta, stmts[1..]), SectionsM(meta, stmts);
    if i == 0 {
      assert sections[0].items != [];
    } else {
      SomethingIsThere(meta, stmts[1..], i - 1);
      var k :| 0 <= k < |rest| && rest[k].items != [];
      assert DotsItem(stmts[0]).Some? ==> sections[k + 1] == rest[k];
      assert DotsItem(stmts[0]).None? && k > 0 ==> sections[k] == rest[k];
      assert DotsItem(stmts[0]).None? ==> sections[0].items != [];
    }
  }

  /** A statement patch that begins with `...` and goes on with anything else matches no block. */
  lemma {:induction false} LeadingDotsMatchNothing(
      meta: Meta, start: Pos, end: Pos, stmts: seq<Value>, i: nat, block: seq<Value>, d: Env)
    requires i < |stmts| && DotsItem(stmts[0]).Some? && DotsItem(stmts[i]).None?
    ensures Match(CompileM(meta, Wrapped(start, end, stmts)), Slice(STMT_SLICE, block), d).None?
  {
    hide CompileM, Wrapped, Match, DotsItem, Placeable;
    assert FirstEmpty(SectionsM(meta, stmts)) == 0;
    assert SectionsM(meta, stmts)[..0] == [] && SectionsM(meta, stmts)[0..] == SectionsM(meta, stmts);
    SomethingIsThere(meta, stmts, i);
    StatementsAreFoundAnywhere(meta, start, end, stmts, block, d);
  }

  /** A `...` at the end of a statement patch changes nothing. */
  lemma {:induction false} TrailingDotsChangeNothing(
      meta: Meta, start: Pos, end: Pos, stmts: seq<Value>, dots: Value, block: seq<Value>, d: Env)
    requires stmts != [] && DotsItem(dots).Some? && NoneEmpty(SectionsM(meta, stmts)) && Independent(SectionsM(meta, stmts), d)
    ensures Match(CompileM(meta, Wrapped(start, end, stmts + [dots])), Slice(STMT_SLICE, block), d).Some? <==>
      Match(CompileM(meta, Wrapped(start, end, stmts)), Slice(STMT_SLICE, block), d).Some?
  {
    hide CompileM, Wrapped, Match, DotsItem, Placeable, Independent, SectionsM;
    var sections := SectionsM(meta, stmts);
    DotsAtEnd(meta, stmts, dots);
    FirstEmptyIs(sections, |sections|);
    assert sections[..|sections|] == sections;
    EmptyAtEnd(sections);
    StatementsAreFoundAnywhere(meta, start, end, stmts, block, d);
    StatementsAreFoundAnywhere(meta, start, end, stmts + [dots], block, d);
  }

  lemma {:induction false} StmtsField(v: Value)
    requires Plain(v) && v.Ptr? && v.elem.Struct? && StmtsIndex(v.elem.t).Some?
    ensures v.t == PtrT(v.elem.t) && v.elem.t.StructT? && |v.elem.fields| == |v.elem.t.layout|
    ensures TypeOf(v.elem.fields[StmtsIndex(v.elem.t).value]) == STMT_SLICE
  {
    assert WellTyped(v.elem);
  }

  /** A statement patch with the same code on both sides rebuilds the block, case or select clause it has matched. */
  lemma {:induction false} SameStatementsAreNoOp(
      meta: Meta, start: Pos, end: Pos, minus: seq<Value>, plus: seq<Value>, v: Value, d: Env, assoc: Assoc, pos: Pos)
    requires Statements(minus) && Statements(plus) && EqAll(minus, plus) && Plain(v) && pos.IsValid()
    requires Linked(assoc, DotsOf(Wrapped(start, end, minus)), DotsOf(Wrapped(start, end, plus)))
    requires Distinct(DotsOf(Wrapped(start, end, minus)))
    requires MatchContainer(CompileM(meta, Wrapped(start, end, minus)), v, New).Some?
    requires SameAnswers(MatchContainer(CompileM(meta, Wrapped(start, end, minus)), v, New).value, d)
    ensures Restores(ReplaceContainer(CompileR(meta, Wrapped(start, end, plus)), d, assoc, pos), v)
  {
    hide Match, CompileM, Replace, CompileR, WellTyped, DotsFree, Eq, DotsOf;
    var p, q := Wrapped(start, end, minus), Wrapped(start, end, plus);
    WrappedIsWellTyped(start, end, minus);
    WrappedAreSame(start, end, minus, plus);
    hide Wrapped;
    PlainParts(v);
    PlainParts(v.elem);
    var t, fields, idx := v.elem.t, v.elem.fields, StmtsIndex(v.elem.t).value;
    StmtsField(v);
    var d0 := With(New, StmtListKey, Around(t, idx, OthersOf(fields, idx)));
    forall x ensures Bound(d0, x).None? {
      assert d0.Value(MetaKey(x)) == d0.parent.Value(MetaKey(x));
    }
    assert Facing(p, fields[idx]);
    var d1 := Match(CompileM(meta, p), fields[idx], d0).value;
    MatchKeeps(CompileM(meta, p), fields[idx], d0, StmtListKey);
    assert Survives(d1, d, SetOf(DotsOf(p))) by {
      assert forall x :: d.Value(MetaKey(x)) == d1.Value(MetaKey(x));
    }
    SameSides(meta, p, q, fields[idx], d0, d, assoc, pos);
    var stmts := Replace(CompileR(meta, q), d, assoc, pos).value;
    AroundRebuilt(t, fields, idx, stmts);
    OneFieldChanged(v, idx, stmts);
  }
}
