/** What a patch puts in the place of the code it has matched: the plus side, filled in with what the minus side captured. */
module Filling {
  import opened Wrappers
  import opened Data
  import opened Tree
  import opened Engine
  import opened Capture
  import Unify
  import Independence
  import NoOp

  // ------------------------------------------------------------------ the plus side, filled in

  /** The loop recorded for the `...` of a `for ...`, around a new body. */
  function Looped(d: Env, dots: Pos, body: Value): Option<Value> {
    match d.Value(ForKey(dots))
    case Some(Around(t, idx, others)) => Rebuild(Around(t, idx, others), body)
    case _ => None
  }

  /**
   * The tree with captured code in place of its metavariables, skipped runs in place of its `...`s, and the matched loops
   * around the bodies of its `for ...`s.
   */
  function Fill(meta: Meta, p: Value, d: Env, assoc: Assoc): Value
    decreases p
  {
    if Cut(TypeOf(p)) then p
    else match p
      case Ptr(t, e) =>
        if Unify.IsVariable(meta, p) then
          Bound(d, IdentName(p).value).GetOr(p)
        else if ForDots(p).Some? then
          Looped(d, Partner(assoc, ForDots(p).value), Fill(meta, e.fields[4], d, assoc)).GetOr(p)
        else
          Ptr(t, Fill(meta, e, d, assoc))
      case Iface(t, e) => Iface(t, Fill(meta, e, d, assoc))
      case Slice(t, items) => Slice(t, FillAll(meta, Elidable(t), items, d, assoc))
      case Struct(t, fields) => Struct(t, FillAll(meta, false, fields, d, assoc))
      case _ => p
  }

  /** The items in order, the run that the minus side skipped for each `...`. */
  function FillAll(meta: Meta, elidable: bool, ps: seq<Value>, d: Env, assoc: Assoc): seq<Value>
    decreases ps
  {
    if ps == [] then []
    else
      (if elidable && DotsItem(ps[0]).Some? then Run(d, Partner(assoc, DotsItem(ps[0]).value))
       else [Fill(meta, ps[0], d, assoc)])
      + FillAll(meta, elidable, ps[1..], d, assoc)
  }

  /** Everything that the tree asks for was captured: its metavariables are bound, its loops recorded. */
  predicate Fillable(meta: Meta, p: Value, d: Env, assoc: Assoc)
    decreases p
  {
    Cut(TypeOf(p)) ||
    match p
    case Ptr(_, e) =>
      if Unify.IsVariable(meta, p) then
        Bound(d, IdentName(p).value).Some?
      else if ForDots(p).Some? then
        Looped(d, Partner(assoc, ForDots(p).value), e.fields[4]).Some? && Fillable(meta, e.fields[4], d, assoc)
      else
        Fillable(meta, e, d, assoc)
    case Iface(_, e) => Fillable(meta, e, d, assoc)
    case Slice(t, items) => FillableAll(meta, Elidable(t), items, d, assoc)
    case Struct(_, fields) => FillableAll(meta, false, fields, d, assoc)
    case _ => true
  }

  predicate FillableAll(meta: Meta, elidable: bool, ps: seq<Value>, d: Env, assoc: Assoc)
    decreases ps
  {
    forall i | 0 <= i < |ps| :: (elidable && DotsItem(ps[i]).Some?) || Fillable(meta, ps[i], d, assoc)
  }

  // ------------------------------------------------------------------ the replacer fills it in

  /** The replacement succeeds exactly when it can, and then gives w, up to `Eq`. */
  ghost predicate Gives(r: Option<Value>, can: bool, w: Value) {
    (r.Some? <==> can) && (r.Some? ==> Eq(r.value, w))
  }

  ghost predicate IsFilled(meta: Meta, p: Value, d: Env, assoc: Assoc, pos: Pos) {
    Gives(Replace(CompileR(meta, p), d, assoc, pos), Fillable(meta, p, d, assoc), Fill(meta, p, d, assoc))
  }

  ghost predicate GivesAll(r: Option<seq<Value>>, can: bool, ws: seq<Value>) {
    (r.Some? <==> can) && (r.Some? ==> EqAll(r.value, ws))
  }

  ghost predicate AreFilled(meta: Meta, ps: seq<Value>, d: Env, assoc: Assoc, pos: Pos) {
    GivesAll(ReplaceAll(CompileAllR(meta, ps), d, assoc, pos), FillableAll(meta, false, ps, d, assoc),
             FillAll(meta, false, ps, d, assoc))
  }

  lemma {:induction false} LeafFilled(meta: Meta, p: Value, d: Env, assoc: Assoc, pos: Pos)
    requires WellTyped(p) && pos.IsValid() && (Cut(TypeOf(p)) || p.Nil? || p.PosV? || p.Prim?)
    ensures IsFilled(meta, p, d, assoc, pos)
  {
  }

  lemma {:induction false} VariableFilled(meta: Meta, p: Value, d: Env, assoc: Assoc, pos: Pos)
    requires Unify.IsVariable(meta, p) && PlainEnv(d) && pos.IsValid()
    ensures IsFilled(meta, p, d, assoc, pos)
  {
    hide WellTyped, DotsFree, Eq;
    var x := IdentName(p).value;
    if Bound(d, x).Some? {
      NoOp.VariableReplaced(meta, p, Bound(d, x).value, d, assoc, pos);
      NoOp.CaptureIsReproduced(Bound(d, x).value, pos);
    } else {
      assert Replace(CompileR(meta, p), d, assoc, pos).None?;
    }
  }

  /** Loops around equal bodies are equal. */
  lemma {:induction false} LoopsAreEqual(d: Env, dots: Pos, body: Value, body': Value)
    requires Eq(body, body')
    ensures Looped(d, dots, body).Some? <==> Looped(d, dots, body').Some?
    ensures Looped(d, dots, body).Some? ==> Eq(Looped(d, dots, body).value, Looped(d, dots, body').value)
  {
    if Looped(d, dots, body).Some? {
      var around := d.Value(ForKey(dots)).value;
      var (t, idx) := (around.t, around.idx);
      var fields := SetAll(Zero(t).fields, around.others);
      var (vs, ws) := (fields[idx := body], fields[idx := body']);
      forall i | 0 <= i < |fields| ensures Eq(vs[i], ws[i]) { EqRefl(fields[i]); }
      assert Eq(Struct(t, vs), Struct(t, ws));
    }
  }

  /** Whether there is a loop does not depend on the body. */
  lemma {:induction false} SameLoop(d: Env, dots: Pos, body: Value, body': Value)
    ensures Looped(d, dots, body).Some? <==> Looped(d, dots, body').Some?
  {
  }

  lemma {:induction false} LoopFilled(meta: Meta, p: Value, d: Env, assoc: Assoc, pos: Pos)
    requires p.Ptr? && !Cut(p.t) && !Unify.IsVariable(meta, p) && ForDots(p).Some?
    requires var body := p.elem.fields[4];
      IsFilled(meta, body, d, assoc, pos)
    ensures IsFilled(meta, p, d, assoc, pos)
  {
    var body, dots := p.elem.fields[4], Partner(assoc, ForDots(p).value);
    var r, w := Replace(CompileR(meta, body), d, assoc, pos), Fill(meta, body, d, assoc);
    assert CompileR(meta, p) == ForDotsR(ForDots(p).value, CompileR(meta, body));
    assert Replace(CompileR(meta, p), d, assoc, pos) == if r.Some? then Looped(d, dots, r.value) else None;
    assert Fill(meta, p, d, assoc) == Looped(d, dots, w).GetOr(p);
    assert Fillable(meta, p, d, assoc) <==> Looped(d, dots, body).Some? && Fillable(meta, body, d, assoc);
    hide Replace, CompileR, Fill, Fillable, Eq, ForDots, IdentName;
    SameLoop(d, dots, body, w);
    if r.Some? { LoopsAreEqual(d, dots, r.value, w); }
  }

  lemma {:induction false} EqOfParts(t: Type, v: Value, w: Value)
    requires Eq(v, w)
    ensures Eq(Ptr(t, v), Ptr(t, w)) && Eq(Iface(t, v), Iface(t, w))
  {
  }

  lemma {:induction false} EqOfLists(t: Type, vs: seq<Value>, ws: seq<Value>)
    requires EqAll(vs, ws)
    ensures Eq(Slice(t, vs), Slice(t, ws)) && Eq(Struct(t, vs), Struct(t, ws))
    ensures t.SliceT? && vs == [] ==> Eq(Nil(t), Slice(t, ws))
  {
  }

  lemma {:induction false} EqAllRefl(vs: seq<Value>)
    ensures EqAll(vs, vs)
  {
    forall i | 0 <= i < |vs| ensures Eq(vs[i], vs[i]) { EqRefl(vs[i]); }
  }

  lemma {:induction false} EqAllConcat(a: seq<Value>, b: seq<Value>, c: seq<Value>, d: seq<Value>)
    requires EqAll(a, c) && EqAll(b, d)
    ensures EqAll(a + b, c + d)
  {
    hide Eq;
  }

  lemma {:induction false} PartsTyped(p: Value)
    requires WellTyped(p)
    ensures p.Ptr? || p.Iface? ==> WellTyped(p.elem)
    ensures p.Slice? ==> NoOp.WellTypedAll(p.items)
    ensures p.Struct? ==> NoOp.WellTypedAll(p.fields)
  {
  }

  lemma {:induction false} LoopParts(p: Value)
    requires WellTyped(p) && p.Ptr? && ForDots(p).Some?
    ensures p.elem.Struct? && |p.elem.fields| == 5 && WellTyped(p.elem.fields[4])
  {
    assert WellTyped(p.elem);
  }

  lemma {:induction false} PointerFilled(meta: Meta, p: Value, d: Env, assoc: Assoc, pos: Pos)
    requires p.Ptr? && !Cut(p.t) && !Unify.IsVariable(meta, p) && ForDots(p).None?
    requires IsFilled(meta, p.elem, d, assoc, pos)
    ensures IsFilled(meta, p, d, assoc, pos)
  {
    var r := Replace(CompileR(meta, p.elem), d, assoc, pos);
    assert Replace(CompileR(meta, p), d, assoc, pos) == if r.Some? then Some(Ptr(p.t, r.value)) else None;
    assert Fill(meta, p, d, assoc) == Ptr(p.t, Fill(meta, p.elem, d, assoc));
    hide Eq, Replace, CompileR, Fill;
    if r.Some? { EqOfParts(p.t, r.value, Fill(meta, p.elem, d, assoc)); }
  }

  lemma {:induction false} IfaceFilled(meta: Meta, p: Value, d: Env, assoc: Assoc, pos: Pos)
    requires p.Iface? && !Cut(p.t)
    requires IsFilled(meta, p.elem, d, assoc, pos)
    ensures IsFilled(meta, p, d, assoc, pos)
  {
    var r := Replace(CompileR(meta, p.elem), d, assoc, pos);
    assert Replace(CompileR(meta, p), d, assoc, pos) == if r.Some? then Some(Iface(p.t, r.value)) else None;
    assert Fill(meta, p, d, assoc) == Iface(p.t, Fill(meta, p.elem, d, assoc));
    hide Eq, Replace, CompileR, Fill;
    if r.Some? { EqOfParts(p.t, r.value, Fill(meta, p.elem, d, assoc)); }
  }

  /** The items of a struct, or of a list in which no `...` can stand. */
  lemma {:induction false} ListFilled(meta: Meta, p: Value, d: Env, assoc: Assoc, pos: Pos)
    requires (p.Struct? || (p.Slice? && !Elidable(p.t))) && !Cut(p.t)
    requires var ps := if p.Slice? then p.items else p.fields;
      AreFilled(meta, ps, d, assoc, pos)
    ensures IsFilled(meta, p, d, assoc, pos)
  {
    hide Eq, ReplaceAll, CompileAllR, FillAll, FillableAll;
    var ps := if p.Slice? then p.items else p.fields;
    var r, ws := ReplaceAll(CompileAllR(meta, ps), d, assoc, pos), FillAll(meta, false, ps, d, assoc);
    if r.Some? { EqOfLists(p.t, r.value, ws); }
  }

  lemma {:induction false} OneSection(first: seq<Replacer>, d: Env, assoc: Assoc, pos: Pos)
    ensures ReplaceSections([Section(first)], [], d, assoc, pos) == ReplaceAll(first, d, assoc, pos)
  {
    hide ReplaceAll;
    assert [Section(first)][1..] == [];
    assert ReplaceSections([], [], d, assoc, pos) == Some([]);
    assert forall vs: seq<Value> :: vs + [] + [] == vs;
  }

  /** A list in which `...` can stand: the sections with the skipped runs in between. */
  lemma {:induction false} ElidableFilled(meta: Meta, p: Value, d: Env, assoc: Assoc, pos: Pos)
    requires p.Slice? && Elidable(p.t)
    requires GivesAll(ReplaceSections(SectionsR(meta, p.items), DotsIn(p.items), d, assoc, pos),
                      FillableAll(meta, true, p.items, d, assoc), FillAll(meta, true, p.items, d, assoc))
    ensures IsFilled(meta, p, d, assoc, pos)
  {
    hide Eq, ReplaceAll, ReplaceSections, CompileAllR, FillAll, FillableAll, SectionsR, DotsIn;
    var sections, ws := SectionsR(meta, p.items), FillAll(meta, true, p.items, d, assoc);
    var r := ReplaceSections(sections, DotsIn(p.items), d, assoc, pos);
    if |sections| == 1 {
      assert sections == [Section(sections[0].items)] && DotsIn(p.items) == [];
      assert ReplaceAll(sections[0].items, d, assoc, pos) == r by { OneSection(sections[0].items, d, assoc, pos); }
    }
    if r.Some? { EqOfLists(p.t, r.value, ws); }
  }

  /**
   * Whatever the plus side of a patch is: the replacer succeeds exactly when everything the plus side asks for was captured,
   * and its result is the plus side with the captures filled in.
   */
  lemma {:induction false} ReplaceFills(meta: Meta, p: Value, d: Env, assoc: Assoc, pos: Pos)
    requires WellTyped(p) && PlainEnv(d) && pos.IsValid()
    ensures IsFilled(meta, p, d, assoc, pos)
    decreases p, 1
  {
    hide IsFilled, Replace, CompileR, WellTyped, Eq, Fill, Fillable, IdentName, ForDots, PlainEnv;
    if Unify.IsLeaf(p) {
      LeafFilled(meta, p, d, assoc, pos);
    } else {
      match p
      case Ptr(_, e) =>
        assert WellTyped(e) by { PartsTyped(p); }
        if Unify.IsVariable(meta, p) {
          VariableFilled(meta, p, d, assoc, pos);
        } else if ForDots(p).Some? {
          assert e.Struct? && |e.fields| == 5 && WellTyped(e.fields[4]) by { LoopParts(p); }
          ReplaceFills(meta, e.fields[4], d, assoc, pos);
          LoopFilled(meta, p, d, assoc, pos);
        } else {
          ReplaceFills(meta, e, d, assoc, pos);
          PointerFilled(meta, p, d, assoc, pos);
        }
      case Iface(_, e) =>
        assert WellTyped(e) by { PartsTyped(p); }
        ReplaceFills(meta, e, d, assoc, pos);
        IfaceFilled(meta, p, d, assoc, pos);
      case Slice(t, items) =>
        assert NoOp.WellTypedAll(items) by { PartsTyped(p); }
        if Elidable(t) {
          ListFills(meta, items, d, assoc, pos);
          ElidableFilled(meta, p, d, assoc, pos);
        } else {
          ItemsFill(meta, items, d, assoc, pos);
          ListFilled(meta, p, d, assoc, pos);
        }
      case Struct(_, fields) =>
        assert NoOp.WellTypedAll(fields) by { PartsTyped(p); }
        ItemsFill(meta, fields, d, assoc, pos);
        ListFilled(meta, p, d, assoc, pos);
    }
  }

  /** One more item in front. */
  function InFront(r: Option<Value>, rest: Option<seq<Value>>): Option<seq<Value>> {
    if r.Some? && rest.Some? then Some([r.value] + rest.value) else None
  }

  lemma {:induction false} FirstFillable(meta: Meta, elidable: bool, ps: seq<Value>, d: Env, assoc: Assoc)
    requires ps != []
    ensures FillableAll(meta, elidable, ps, d, assoc) <==>
      ((elidable && DotsItem(ps[0]).Some?) || Fillable(meta, ps[0], d, assoc)) && FillableAll(meta, elidable, ps[1..], d, assoc)
  {
    hide Fillable, DotsItem;
    assert forall i | 1 <= i < |ps| :: ps[i] == ps[1..][i - 1];
  }

  lemma {:induction false} FirstFilled(
      meta: Meta, elidable: bool, ps: seq<Value>, d: Env, assoc: Assoc, pos: Pos, rest: Option<seq<Value>>)
    requires ps != [] && !(elidable && DotsItem(ps[0]).Some?)
    requires IsFilled(meta, ps[0], d, assoc, pos)
    requires GivesAll(rest, FillableAll(meta, elidable, ps[1..], d, assoc), FillAll(meta, elidable, ps[1..], d, assoc))
    ensures GivesAll(InFront(Replace(CompileR(meta, ps[0]), d, assoc, pos), rest),
                     FillableAll(meta, elidable, ps, d, assoc), FillAll(meta, elidable, ps, d, assoc))
  {
    hide Eq, Replace, CompileR, Fill, Fillable, DotsItem;
    var r := Replace(CompileR(meta, ps[0]), d, assoc, pos);
    assert FillableAll(meta, elidable, ps, d, assoc) <==>
      Fillable(meta, ps[0], d, assoc) && FillableAll(meta, elidable, ps[1..], d, assoc) by {
      FirstFillable(meta, elidable, ps, d, assoc);
    }
    if r.Some? && rest.Some? {
      EqAllConcat([r.value], rest.value, [Fill(meta, ps[0], d, assoc)], FillAll(meta, elidable, ps[1..], d, assoc));
    }
  }

  lemma {:induction false} ItemsFill(meta: Meta, ps: seq<Value>, d: Env, assoc: Assoc, pos: Pos)
    requires NoOp.WellTypedAll(ps) && PlainEnv(d) && pos.IsValid()
    ensures AreFilled(meta, ps, d, assoc, pos)
    decreases ps, 0
  {
    hide WellTyped, Eq, Replace, CompileR, Fill, Fillable, PlainEnv;
    if ps != [] {
      assert CompileAllR(meta, ps)[1..] == CompileAllR(meta, ps[1..]);
      ReplaceFills(meta, ps[0], d, assoc, pos);
      ItemsFill(meta, ps[1..], d, assoc, pos);
      FirstFilled(meta, false, ps, d, assoc, pos, ReplaceAll(CompileAllR(meta, ps[1..]), d, assoc, pos));
    }
  }

  /** One section, the run behind it and the other sections. */
  function Woven(first: Option<seq<Value>>, run: seq<Value>, rest: Option<seq<Value>>): Option<seq<Value>> {
    if first.Some? && rest.Some? then Some(first.value + run + rest.value) else None
  }

  lemma {:induction false} SectionsAreWoven(
      first: seq<Replacer>, rest: seq<Section<Replacer>>, dots: seq<Pos>, d: Env, assoc: Assoc, pos: Pos)
    ensures ReplaceSections([Section(first)] + rest, dots, d, assoc, pos) ==
      Woven(ReplaceAll(first, d, assoc, pos), if dots == [] then [] else Run(d, Partner(assoc, dots[0])),
            ReplaceSections(rest, if dots == [] then [] else dots[1..], d, assoc, pos))
  {
    hide ReplaceAll, Run;
    assert ([Section(first)] + rest)[1..] == rest;
  }

  lemma {:induction false} WovenInFront(r: Option<Value>, first: Option<seq<Value>>, run: seq<Value>, rest: Option<seq<Value>>)
    ensures Woven(InFront(r, first), run, rest) == InFront(r, Woven(first, run, rest))
  {
    if r.Some? && first.Some? && rest.Some? {
      assert [r.value] + first.value + run + rest.value == [r.value] + (first.value + run + rest.value);
    }
  }

  /** A section with one more item in front. */
  lemma {:induction false} MoreInSection(
      r: Replacer, first: seq<Replacer>, rest: seq<Section<Replacer>>, dots: seq<Pos>, d: Env, assoc: Assoc, pos: Pos)
    ensures ReplaceSections([Section([r] + first)] + rest, dots, d, assoc, pos) ==
      InFront(Replace(r, d, assoc, pos), ReplaceSections([Section(first)] + rest, dots, d, assoc, pos))
  {
    hide Replace, ReplaceSections, Run, Woven;
    assert ([r] + first)[1..] == first;
    assert ReplaceAll([r] + first, d, assoc, pos) == InFront(Replace(r, d, assoc, pos), ReplaceAll(first, d, assoc, pos));
    SectionsAreWoven([r] + first, rest, dots, d, assoc, pos);
    SectionsAreWoven(first, rest, dots, d, assoc, pos);
    WovenInFront(Replace(r, d, assoc, pos), ReplaceAll(first, d, assoc, pos),
                 if dots == [] then [] else Run(d, Partner(assoc, dots[0])),
                 ReplaceSections(rest, if dots == [] then [] else dots[1..], d, assoc, pos));
  }

  /** A `...` in front of a list. */
  lemma {:induction false} MoreDots(rest: seq<Section<Replacer>>, dots: Pos, more: seq<Pos>, d: Env, assoc: Assoc, pos: Pos)
    ensures var r := ReplaceSections(rest, more, d, assoc, pos);
      ReplaceSections([Section([])] + rest, [dots] + more, d, assoc, pos) ==
        if r.Some? then Some(Run(d, Partner(assoc, dots)) + r.value) else None
  {
    hide Run;
    var sections: seq<Section<Replacer>> := [Section([])] + rest;
    assert sections[1..] == rest && ([dots] + more)[1..] == more;
    assert [] + Run(d, Partner(assoc, dots)) == Run(d, Partner(assoc, dots));
  }

  lemma {:induction false} NoItems(meta: Meta, d: Env, assoc: Assoc, pos: Pos)
    ensures ReplaceSections(SectionsR(meta, []), DotsIn([]), d, assoc, pos) == Some([])
  {
    OneSection([], d, assoc, pos);
  }

  lemma {:induction false} NothingToFill(meta: Meta, d: Env, assoc: Assoc)
    ensures FillableAll(meta, true, [], d, assoc)
  {
  }

  lemma {:induction false} ListFills(meta: Meta, ps: seq<Value>, d: Env, assoc: Assoc, pos: Pos)
    requires NoOp.WellTypedAll(ps) && PlainEnv(d) && pos.IsValid()
    ensures GivesAll(ReplaceSections(SectionsR(meta, ps), DotsIn(ps), d, assoc, pos),
                     FillableAll(meta, true, ps, d, assoc), FillAll(meta, true, ps, d, assoc))
    decreases ps, 0
  {
    hide WellTyped, Eq, Replace, CompileR, Fill, Fillable, PlainEnv, ReplaceSections, DotsItem, Run, FillableAll, Gives;
    if ps == [] {
      NoItems(meta, d, assoc, pos);
      assert FillableAll(meta, true, ps, d, assoc) by { NothingToFill(meta, d, assoc); }
    } else {
      var rest, more := SectionsR(meta, ps[1..]), DotsIn(ps[1..]);
      var tail := ReplaceSections(rest, more, d, assoc, pos);
      ListFills(meta, ps[1..], d, assoc, pos);
      FirstFillable(meta, true, ps, d, assoc);
      if DotsItem(ps[0]).Some? {
        var run := Run(d, Partner(assoc, DotsItem(ps[0]).value));
        MoreDots(rest, DotsItem(ps[0]).value, more, d, assoc, pos);
        EqAllRefl(run);
        if tail.Some? { EqAllConcat(run, tail.value, run, FillAll(meta, true, ps[1..], d, assoc)); }
      } else {
        ReplaceFills(meta, ps[0], d, assoc, pos);
        MoreInSection(CompileR(meta, ps[0]), rest[0].items, rest[1..], more, d, assoc, pos);
        assert [Section(rest[0].items)] + rest[1..] == rest;
        assert [] + more == more;
        FirstFilled(meta, true, ps, d, assoc, pos, tail);
      }
    }
  }

  // ------------------------------------------------------------------ what counts are the answers of the environment

  lemma {:induction false} SameAnswersSameLoop(d: Env, d2: Env, dots: Pos)
    requires NoOp.SameAnswers(d, d2)
    ensures forall body :: Looped(d2, dots, body) == Looped(d, dots, body)
  {
  }

  lemma {:induction false} SameAnswersSamePointer(meta: Meta, p: Value, d: Env, d2: Env, assoc: Assoc)
    requires NoOp.SameAnswers(d, d2) && p.Ptr? && !Cut(p.t)
    requires Fill(meta, p.elem, d, assoc) == Fill(meta, p.elem, d2, assoc)
    requires Fillable(meta, p.elem, d, assoc) <==> Fillable(meta, p.elem, d2, assoc)
    requires ForDots(p).Some? ==>
      var body := p.elem.fields[4];
      && Fill(meta, body, d, assoc) == Fill(meta, body, d2, assoc)
      && (Fillable(meta, body, d, assoc) <==> Fillable(meta, body, d2, assoc))
    ensures Fill(meta, p, d, assoc) == Fill(meta, p, d2, assoc)
    ensures Fillable(meta, p, d, assoc) <==> Fillable(meta, p, d2, assoc)
  {
    hide IdentName, Looped, DotsExpr;
    if Unify.IsVariable(meta, p) {
      assert d2.Value(MetaKey(IdentName(p).value)) == d.Value(MetaKey(IdentName(p).value));
    } else if ForDots(p).Some? {
      SameAnswersSameLoop(d, d2, Partner(assoc, ForDots(p).value));
    }
  }

  lemma {:induction false} SameAnswersSameFilling(meta: Meta, p: Value, d: Env, d2: Env, assoc: Assoc)
    requires NoOp.SameAnswers(d, d2)
    ensures Fill(meta, p, d, assoc) == Fill(meta, p, d2, assoc)
    ensures Fillable(meta, p, d, assoc) <==> Fillable(meta, p, d2, assoc)
    decreases p, 1
  {
    hide IdentName, Looped, DotsExpr, Bound;
    if !Cut(TypeOf(p)) {
      match p
      case Ptr(_, e) =>
        if ForDots(p).Some? { SameAnswersSameFilling(meta, e.fields[4], d, d2, assoc); }
        SameAnswersSameFilling(meta, e, d, d2, assoc);
        SameAnswersSamePointer(meta, p, d, d2, assoc);
      case Iface(_, e) => SameAnswersSameFilling(meta, e, d, d2, assoc);
      case Slice(t, items) => SameAnswersSameItems(meta, Elidable(t), items, d, d2, assoc);
      case Struct(_, fields) => SameAnswersSameItems(meta, false, fields, d, d2, assoc);
      case _ =>
    }
  }

  lemma {:induction false} SameAnswersSameItems(meta: Meta, elidable: bool, ps: seq<Value>, d: Env, d2: Env, assoc: Assoc)
    requires NoOp.SameAnswers(d, d2)
    ensures FillAll(meta, elidable, ps, d, assoc) == FillAll(meta, elidable, ps, d2, assoc)
    ensures FillableAll(meta, elidable, ps, d, assoc) <==> FillableAll(meta, elidable, ps, d2, assoc)
    decreases ps, 0
  {
    hide Fill, Fillable, DotsItem;
    if ps != [] {
      SameAnswersSameFilling(meta, ps[0], d, d2, assoc);
      SameAnswersSameItems(meta, elidable, ps[1..], d, d2, assoc);
      FirstFillable(meta, elidable, ps, d, assoc);
      FirstFillable(meta, elidable, ps, d2, assoc);
    }
  }

  // ------------------------------------------------------------------ patches without `...`

  /** Without `...`, only metavariables are asked for. */
  lemma {:induction false} PlainFillable(meta: Meta, p: Value, d: Env, assoc: Assoc)
    requires Plain(p)
    ensures Fillable(meta, p, d, assoc) <==> forall x | x in Unify.Vars(meta, p) :: Bound(d, x).Some?
    decreases p, 1
  {
    hide WellTyped, DotsFree, Bound, IdentName, ForDots;
    PlainParts(p);
    if !Cut(TypeOf(p)) {
      match p
      case Ptr(_, e) => if !Unify.IsVariable(meta, p) { PlainFillable(meta, e, d, assoc); }
      case Iface(_, e) => PlainFillable(meta, e, d, assoc);
      case Slice(t, items) => PlainItemsFillable(meta, Elidable(t), items, d, assoc);
      case Struct(_, fields) => PlainItemsFillable(meta, false, fields, d, assoc);
      case _ =>
    }
  }

  lemma {:induction false} PlainItemsFillable(meta: Meta, elidable: bool, ps: seq<Value>, d: Env, assoc: Assoc)
    requires PlainAll(ps) && (elidable ==> DotsFreeAll(ps))
    ensures FillableAll(meta, elidable, ps, d, assoc) <==> forall x | x in Unify.VarsAll(meta, ps) :: Bound(d, x).Some?
    decreases ps, 0
  {
    hide Plain, DotsFree, Bound, Fillable, DotsItem, Unify.Vars;
    forall i | 0 <= i < |ps|
      ensures Fillable(meta, ps[i], d, assoc) <==> forall x | x in Unify.Vars(meta, ps[i]) :: Bound(d, x).Some?
    {
      PlainFillable(meta, ps[i], d, assoc);
    }
  }

  /** Then filling in is substituting. */
  lemma {:induction false} FillingIsSubstituting(meta: Meta, p: Value, d: Env, assoc: Assoc, s: Unify.Subst)
    requires Plain(p) && Fillable(meta, p, d, assoc) && Unify.Holds(d, s)
    ensures Eq(Fill(meta, p, d, assoc), Unify.Apply(meta, p, s))
    decreases p, 1
  {
    hide WellTyped, DotsFree, Bound, ForDots;
    PlainParts(p);
    if !Cut(TypeOf(p)) {
      match p
      case Ptr(t, e) =>
        if Unify.IsVariable(meta, p) {
          EqRefl(s[IdentName(p).value]);
        } else {
          FillingIsSubstituting(meta, e, d, assoc, s);
          EqOfParts(t, Fill(meta, e, d, assoc), Unify.Apply(meta, e, s));
        }
      case Iface(t, e) =>
        FillingIsSubstituting(meta, e, d, assoc, s);
        EqOfParts(t, Fill(meta, e, d, assoc), Unify.Apply(meta, e, s));
      case Slice(t, items) =>
        ItemsSubstituted(meta, Elidable(t), items, d, assoc, s);
        EqOfLists(t, FillAll(meta, Elidable(t), items, d, assoc), Unify.ApplyAll(meta, items, s));
      case Struct(t, fields) =>
        ItemsSubstituted(meta, false, fields, d, assoc, s);
        EqOfLists(t, FillAll(meta, false, fields, d, assoc), Unify.ApplyAll(meta, fields, s));
      case _ => EqRefl(p);
    }
  }

  lemma {:induction false} ItemsSubstituted(meta: Meta, elidable: bool, ps: seq<Value>, d: Env, assoc: Assoc, s: Unify.Subst)
    requires PlainAll(ps) && (elidable ==> DotsFreeAll(ps)) && FillableAll(meta, elidable, ps, d, assoc) && Unify.Holds(d, s)
    ensures EqAll(FillAll(meta, elidable, ps, d, assoc), Unify.ApplyAll(meta, ps, s))
    decreases ps, 0
  {
    hide Plain, DotsFree, Fill, Fillable, DotsItem, Unify.Apply, Eq, Unify.Holds;
    if ps != [] {
      FirstFillable(meta, elidable, ps, d, assoc);
      FillingIsSubstituting(meta, ps[0], d, assoc, s);
      ItemsSubstituted(meta, elidable, ps[1..], d, assoc, s);
      assert Unify.ApplyAll(meta, ps, s) == [Unify.Apply(meta, ps[0], s)] + Unify.ApplyAll(meta, ps[1..], s);
      EqAllConcat([Fill(meta, ps[0], d, assoc)], FillAll(meta, elidable, ps[1..], d, assoc),
                  [Unify.Apply(meta, ps[0], s)], Unify.ApplyAll(meta, ps[1..], s));
    }
  }

  /** Substitutions that agree on the metavariables of a tree give equal trees. */
  lemma {:induction false} SubstitutionsAgree(meta: Meta, p: Value, s: Unify.Subst, r: Unify.Subst)
    requires forall x | x in Unify.Vars(meta, p) :: x in s && x in r && Eq(s[x], r[x])
    ensures Eq(Unify.Apply(meta, p, s), Unify.Apply(meta, p, r))
    decreases p
  {
    if !Cut(TypeOf(p)) {
      match p
      case Ptr(t, e) =>
        if !Unify.IsVariable(meta, p) {
          SubstitutionsAgree(meta, e, s, r);
        }
      case Iface(_, e) => SubstitutionsAgree(meta, e, s, r);
      case Slice(_, items) =>
        forall i | 0 <= i < |items| ensures Eq(Unify.Apply(meta, items[i], s), Unify.Apply(meta, items[i], r)) {
          assert forall x | x in Unify.Vars(meta, items[i]) :: x in Unify.VarsAll(meta, items);
          SubstitutionsAgree(meta, items[i], s, r);
        }
      case Struct(_, fields) =>
        forall i | 0 <= i < |fields| ensures Eq(Unify.Apply(meta, fields[i], s), Unify.Apply(meta, fields[i], r)) {
          assert forall x | x in Unify.Vars(meta, fields[i]) :: x in Unify.VarsAll(meta, fields);
          SubstitutionsAgree(meta, fields[i], s, r);
        }
      case _ => EqRefl(p);
    }
  }

  /** A match of a tree without `...` binds exactly its metavariables. */
  lemma {:induction false} ExactlyTheVariablesAreBound(meta: Meta, p: Value, v: Value, x: string)
    requires Plain(p) && Plain(v) && Unify.InPlace(p, v) && Match(CompileM(meta, p), v, New).Some?
    ensures Bound(Match(CompileM(meta, p), v, New).value, x).Some? <==> x in Unify.Vars(meta, p)
  {
    hide Plain, CompileM, Match, Unify.InPlace, Unify.Vars, Eq;
    var d := Match(CompileM(meta, p), v, New).value;
    if x in Unify.Vars(meta, p) {
      Unify.MatchIsSound(meta, p, v);
    }
    if x !in VarsM(CompileM(meta, p)) {
      MatchKeeps(CompileM(meta, p), v, New, MetaKey(x));
    } else {
      Independence.VarsCompiled(meta, p, x);
    }
  }

  lemma {:induction false} PlainIsTyped(p: Value)
    requires Plain(p)
    ensures WellTyped(p)
  {
  }

  lemma {:induction false} SolutionGives(meta: Meta, minus: Value, plus: Value, v: Value, d: Env, assoc: Assoc, s: Unify.Subst)
    requires Plain(minus) && Plain(plus) && Plain(v) && Unify.InPlace(minus, v) && Match(CompileM(meta, minus), v, New).Some?
    requires forall x :: Bound(d, x) == Bound(Match(CompileM(meta, minus), v, New).value, x)
    requires Unify.Vars(meta, plus) <= Unify.Vars(meta, minus) && Fillable(meta, plus, d, assoc)
    requires Unify.Solves(meta, minus, s, v)
    ensures Eq(Fill(meta, plus, d, assoc), Unify.Apply(meta, plus, s))
  {
    hide Plain, CompileM, Match, Unify.InPlace, Unify.Vars, Eq, Fill, Fillable, Unify.Apply;
    var d0 := Match(CompileM(meta, minus), v, New).value;
    var r := Unify.Captures(d0);
    forall x ensures Bound(d, x).Some? ==> x in r && r[x] == Bound(d, x).value { Unify.BoundIsNamed(d0, x); }
    FillingIsSubstituting(meta, plus, d, assoc, r);
    forall x | x in Unify.Vars(meta, plus) ensures x in r && x in s && Eq(r[x], s[x]) {
      Unify.CapturesAreUnique(meta, minus, v, s, x);
    }
    SubstitutionsAgree(meta, plus, r, s);
    EqTrans(Fill(meta, plus, d, assoc), Unify.Apply(meta, plus, r), Unify.Apply(meta, plus, s));
  }

  /**
   * A patch without `...` rewrites terms. It fails exactly when its plus side mentions a metavariable that its minus side
   * does not. Otherwise, whichever trees in place of the metavariables make the minus side equal to the code: the same trees
   * in place of the metavariables of the plus side give what the code is replaced with.
   */
  lemma {:induction false} PatchesRewriteTerms(meta: Meta, minus: Value, plus: Value, v: Value, d: Env, assoc: Assoc, pos: Pos)
    requires Plain(minus) && Plain(plus) && Plain(v) && Unify.InPlace(minus, v) && pos.IsValid()
    requires Match(CompileM(meta, minus), v, New).Some? && NoOp.SameAnswers(Match(CompileM(meta, minus), v, New).value, d)
    ensures var r := Replace(CompileR(meta, plus), d, assoc, pos);
      && (r.Some? <==> Unify.Vars(meta, plus) <= Unify.Vars(meta, minus))
      && (r.Some? ==> forall s | Unify.Solves(meta, minus, s, v) :: Eq(r.value, Unify.Apply(meta, plus, s)))
  {
    hide Plain, CompileM, Match, CompileR, Replace, Unify.InPlace, Unify.Vars, Eq, Fill, Fillable, Unify.Solves, Unify.Apply;
    var d0 := Match(CompileM(meta, minus), v, New).value;
    assert PlainEnv(d0) by { MatchCapturesPlain(CompileM(meta, minus), v, New); }
    forall x ensures Bound(d, x) == Bound(d0, x) && (Bound(d, x).Some? <==> x in Unify.Vars(meta, minus)) {
      assert d.Value(MetaKey(x)) == d0.Value(MetaKey(x));
      ExactlyTheVariablesAreBound(meta, minus, v, x);
    }
    assert WellTyped(plus) by { assert Plain(plus); PlainIsTyped(plus); }
    ReplaceFills(meta, plus, d, assoc, pos);
    PlainFillable(meta, plus, d, assoc);
    var r := Replace(CompileR(meta, plus), d, assoc, pos);
    if r.Some? {
      forall s | Unify.Solves(meta, minus, s, v) ensures Eq(r.value, Unify.Apply(meta, plus, s)) {
        SolutionGives(meta, minus, plus, v, d, assoc, s);
        EqTrans(r.value, Fill(meta, plus, d, assoc), Unify.Apply(meta, plus, s));
      }
    }
  }
}
