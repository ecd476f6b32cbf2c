/** Which code the special shapes of a patch admit: elided lists, `for ...` loops and statement lists. */
module Shapes {
  import opened Wrappers
  import opened Data
  import opened Tree
  import opened Engine
  import Elision
  import StmtList

  // ------------------------------------------------------------------ elided lists

  /** `...` as an expression. */
  function DotsValue(pos: Pos): Value {
    Iface(EXPR, Ptr(PtrT(DOTS), Struct(DOTS, [Nil(EXPR), PosV(pos)])))
  }

  /** `...` as a parameter, result or field. */
  function DotsField(pos: Pos): Value {
    Ptr(PtrT(FIELD), Struct(FIELD, [
      Nil(COMMENT_GROUP_PTR), Nil(SliceT(IDENT_PTR)), DotsValue(pos), Nil(PtrT(BASIC_LIT)), Nil(COMMENT_GROUP_PTR)]))
  }

  /** The expression is a `...`. */
  predicate IsDots(v: Value) {
    v.Iface? && TypeOf(v.elem) == PtrT(DOTS)
  }

  /** v points to a node of this type whose field i is a `...`. */
  predicate DotsAt(v: Value, t: Type, i: nat) {
    v.Ptr? && v.t == PtrT(t) && v.elem.Struct? && i < |v.elem.fields| && IsDots(v.elem.fields[i])
  }

  lemma {:induction false} DotsExprIsDots(v: Value)
    requires WellTyped(v)
    ensures DotsExpr(v).Some? <==> IsDots(v)
  {
    if v.Iface? && v.elem.t == PtrT(DOTS) {
      assert WellTyped(v.elem) && WellTyped(v.elem.elem);
      assert TypeOf(v.elem.elem.fields[1]) == PosT && WellTyped(v.elem.elem.fields[1]);
    }
  }

  /** Nothing but `...` as an expression, as a statement, or as the type of a field is elided. */
  lemma {:induction false} DotsItemsAreDots(v: Value)
    requires WellTyped(v)
    ensures DotsItem(v).Some? <==>
      || (TypeOf(v) == EXPR && IsDots(v))
      || (TypeOf(v) == STMT && v.Iface? && DotsAt(v.elem, EXPR_STMT, 0))
      || (TypeOf(v) == PtrT(FIELD) && DotsAt(v, FIELD, 2))
  {
    DotsExprIsDots(v);
    if v.Iface? && v.elem.t == PtrT(EXPR_STMT) {
      assert WellTyped(v.elem) && WellTyped(v.elem.elem);
      DotsExprIsDots(v.elem.elem.fields[0]);
    }
    if v.Ptr? && v.t == PtrT(FIELD) {
      assert WellTyped(v.elem);
      DotsExprIsDots(v.elem.fields[2]);
    }
  }

  /** Lists of anything but expressions, statements and fields hold no `...`. */
  lemma {:induction false} OtherListsHoldNoDots(t: Type, items: seq<Value>)
    requires WellTyped(Slice(t, items)) && t.elem != EXPR && t.elem != STMT && t.elem != PtrT(FIELD)
    ensures DotsIn(items) == []
    decreases |items|
  {
    if items != [] {
      DotsItemsAreDots(items[0]);
      var rest := Slice(t, items[1..]);
      assert WellTyped(rest);
      OtherListsHoldNoDots(t, items[1..]);
    }
  }

  lemma {:induction false} NothingBetween(pos: Pos, items: seq<Value>, d: Env)
    ensures MatchElided([Section([]), Section([])], [pos], items, d) == Some(With(d, DotsKey(pos), Skipped(items)))
  {
    var rest: seq<Section<Matcher>> := [Section([])];
    var d1 := With(d, DotsKey(pos), Skipped(items[0..]));
    assert items[0..] == items && rest[1..] == [] && [pos][1..] == [];
    assert FindSection(pos, [], items, d, 0, 0) == Some((|items|, d1));
    assert FindSections([], [], items, d1, |items|) == Some((|items|, d1));
    assert FindSections(rest, [pos], items, d, 0) == Some((|items|, d1));
    assert [Section([]), Section([])][1..] == rest;
  }

  lemma {:induction false} DotsAloneCompile(meta: Meta, t: Type, dots: Value, pos: Pos)
    requires Elidable(t) && DotsItem(dots) == Some(pos)
    ensures CompileM(meta, Slice(t, [dots])) == SliceDotsM([Section([]), Section([])], [pos])
  {
    assert [dots][1..] == [];
    assert SectionsM(meta, [dots]) == [Section([]), Section([])] && DotsIn([dots]) == [pos];
  }

  lemma {:induction false} DotsAlone(meta: Meta, t: Type, dots: Value, pos: Pos, items: seq<Value>, d: Env)
    requires Elidable(t) && DotsItem(dots) == Some(pos)
    ensures var r := Match(CompileM(meta, Slice(t, [dots])), Slice(t, items), d);
      r.Some? && Run(r.value, pos) == items
  {
    hide CompileM, DotsItem, MatchElided;
    DotsAloneCompile(meta, t, dots, pos);
    NothingBetween(pos, items, d);
  }

  /** A `...` alone stands for any list of expressions, statements or fields, and skips all of it. */
  lemma {:induction false} DotsTakeAnyList(meta: Meta, pos: Pos, items: seq<Value>, d: Env)
    ensures var r := Match(CompileM(meta, Slice(SliceT(EXPR), [DotsValue(pos)])), Slice(SliceT(EXPR), items), d);
      r.Some? && Run(r.value, pos) == items
    ensures var r := Match(CompileM(meta, Slice(SliceT(STMT), [StmtList.DotsStmt(pos)])), Slice(SliceT(STMT), items), d);
      r.Some? && Run(r.value, pos) == items
    ensures var r := Match(CompileM(meta, Slice(SliceT(PtrT(FIELD)), [DotsField(pos)])), Slice(SliceT(PtrT(FIELD)), items), d);
      r.Some? && Run(r.value, pos) == items
  {
    assert DotsItem(DotsValue(pos)) == Some(pos) && DotsItem(StmtList.DotsStmt(pos)) == Some(pos);
    assert DotsItem(DotsField(pos)) == Some(pos);
    hide CompileM, Match, Run, DotsItem;
    DotsAlone(meta, EXPR_SLICE, DotsValue(pos), pos, items, d);
    DotsAlone(meta, STMT_SLICE, StmtList.DotsStmt(pos), pos, items, d);
    DotsAlone(meta, FIELD_PTR_SLICE, DotsField(pos), pos, items, d);
  }

  // ------------------------------------------------------------------ loops

  /** `for ... { body }` */
  function ForDotsLoop(forPos: Pos, pos: Pos, body: Value): Value {
    Ptr(PtrT(FOR_STMT), Struct(FOR_STMT, [PosV(forPos), Nil(STMT), DotsValue(pos), Nil(STMT), body]))
  }

  /** Only a for loop whose single clause, its condition, is a `...` is special. */
  lemma {:induction false} OnlyForDotsIsSpecial(v: Value)
    requires WellTyped(v)
    ensures ForDots(v).Some? <==>
      DotsAt(v, FOR_STMT, 2) && |v.elem.fields| == 5 && v.elem.fields[1] == Nil(STMT) && v.elem.fields[3] == Nil(STMT)
  {
    if v.Ptr? && v.t == PtrT(FOR_STMT) {
      assert WellTyped(v.elem);
      DotsExprIsDots(v.elem.fields[2]);
      assert TypeOf(v.elem.fields[1]) == STMT && TypeOf(v.elem.fields[3]) == STMT;
    }
  }

  /** A loop is its block with a header around it. */
  ghost predicate HasBlock(v: Value, i: nat) {
    v.Ptr? && v.elem.Struct? && i < |v.elem.fields| && TypeOf(v.elem.fields[i]) == PtrT(BLOCK_STMT)
  }

  /** A `for ...` matches for and range loops, all others not, and these by their bodies only. */
  lemma {:induction false} ForDotsMatchesLoops(meta: Meta, forPos: Pos, pos: Pos, body: Value, v: Value, d: Env, i: nat)
    requires WellTyped(v)
    ensures var r := Match(CompileM(meta, ForDotsLoop(forPos, pos, body)), v, d);
      && (r.Some? ==> v.Ptr? && (v.t == PtrT(FOR_STMT) || v.t == PtrT(RANGE_STMT)))
      && (HasBlock(v, i) && (v.t == PtrT(FOR_STMT) || v.t == PtrT(RANGE_STMT)) ==>
           r == Match(CompileM(meta, body), v.elem.fields[i],
                      With(d, ForKey(pos), Around(v.elem.t, i, OthersOf(v.elem.fields, i)))))
  {
    var p := ForDotsLoop(forPos, pos, body);
    assert ForDots(p) == Some(pos) && IdentName(p).None?;
    assert CompileM(meta, p) == ForDotsM(pos, CompileM(meta, body));
    hide CompileM;
    if v.Ptr? { assert WellTyped(v.elem); }
    if HasBlock(v, i) {
      assert v.elem.t.layout[i] == PtrT(BLOCK_STMT);
      assert v.t == PtrT(FOR_STMT) ==> i == 4;
      assert v.t == PtrT(RANGE_STMT) ==> i == 7;
    }
  }

  // ------------------------------------------------------------------ statement lists

  ghost predicate HasStmts(v: Value, i: nat) {
    v.Ptr? && v.elem.Struct? && i < |v.elem.fields| && TypeOf(v.elem.fields[i]) == SliceT(STMT)
  }

  predicate HoldsStatements(t: Type) {
    t == PtrT(BLOCK_STMT) || t == PtrT(CASE_CLAUSE) || t == PtrT(COMM_CLAUSE)
  }

  /** Statements are looked for in blocks, cases and select clauses, there in the list of statements, and nowhere else. */
  lemma {:induction false} ContainersOfStatements(m: Matcher, v: Value, d: Env, i: nat)
    requires WellTyped(v)
    ensures StmtList.MatchContainer(m, v, d).Some? ==> v.Ptr? && HoldsStatements(v.t)
    ensures HasStmts(v, i) && HoldsStatements(v.t) ==>
      StmtList.MatchContainer(m, v, d) ==
      Match(m, v.elem.fields[i], With(d, StmtListKey, Around(v.elem.t, i, OthersOf(v.elem.fields, i))))
  {
    if v.Ptr? { assert WellTyped(v.elem); }
    if HasStmts(v, i) {
      assert v.elem.t.layout[i] == SliceT(STMT);
      assert v.t == PtrT(BLOCK_STMT) ==> i == 1;
      assert v.t == PtrT(CASE_CLAUSE) || v.t == PtrT(COMM_CLAUSE) ==> i == 3;
    }
  }
}
