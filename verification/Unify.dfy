/** First-order matching: what a pattern without `...` matches, and what it captures. */
module Unify {
  import opened Wrappers
  import opened Data
  import opened Tree
  import opened Engine
  import opened Capture

  type Subst = map<string, Value>

  /** The pattern with trees in place of its metavariables; nothing inside those trees is replaced. */
  function Apply(meta: Meta, p: Value, s: Subst): Value
    decreases p
  {
    match p
    case Ptr(t, e) =>
      if IdentName(p).Some? && IdentName(p).value in meta then
        if IdentName(p).value in s then s[IdentName(p).value] else p
      else
        Ptr(t, Apply(meta, e, s))
    case Iface(t, e) => Iface(t, Apply(meta, e, s))
    case Slice(t, items) => Slice(t, ApplyAll(meta, items, s))
    case Struct(t, fields) => Struct(t, ApplyAll(meta, fields, s))
    case _ => p
  }

  function ApplyAll(meta: Meta, ps: seq<Value>, s: Subst): (r: seq<Value>)
    ensures |r| == |ps|
    decreases ps
  {
    seq(|ps|, i requires 0 <= i < |ps| => Apply(meta, ps[i], s))
  }

  /** The metavariables that a pattern mentions where the engine looks. */
  ghost function Vars(meta: Meta, p: Value): set<string>
    decreases p
  {
    if Cut(TypeOf(p)) then {}
    else match p
      case Ptr(_, e) =>
        if IdentName(p).Some? && IdentName(p).value in meta then {IdentName(p).value} else Vars(meta, e)
      case Iface(_, e) => Vars(meta, e)
      case Slice(_, items) => VarsAll(meta, items)
      case Struct(_, fields) => VarsAll(meta, fields)
      case _ => {}
  }

  ghost function VarsAll(meta: Meta, ps: seq<Value>): set<string>
    decreases ps
  {
    set i, x | 0 <= i < |ps| && x in Vars(meta, ps[i]) :: x
  }

  /** The substitution gives each metavariable of the pattern a tree of its sort and makes the pattern equal to v. */
  ghost predicate Solves(meta: Meta, p: Value, s: Subst, v: Value) {
    && (forall x | x in Vars(meta, p) :: x in s && x in meta && Plain(s[x]) && (s[x].Nil? || Fits(meta[x], TypeOf(s[x]))))
    && Eq(Apply(meta, p, s), v)
  }

  /** Trees as the parser builds them: a list in which no `...` can stand is nil when it is empty. */
  ghost predicate Canonical(v: Value) {
    match v
    case Ptr(_, e) => Canonical(e)
    case Iface(_, e) => Canonical(e)
    case Slice(t, items) => (Elidable(t) || items != []) && forall i | 0 <= i < |items| :: Canonical(items[i])
    case Struct(_, fields) => forall i | 0 <= i < |fields| :: Canonical(fields[i])
    case _ => true
  }

  /** p and v stand in the same place: same static type, or both inside an interface. */
  predicate InPlace(p: Value, v: Value) {
    SameType(p, v) || (p.Ptr? && v.Ptr? && !Cut(p.t) && !Cut(v.t))
  }

  /** s holds everything that d has captured. */
  ghost predicate Holds(d: Env, s: Subst) {
    forall x :: Bound(d, x).Some? ==> x in s && s[x] == Bound(d, x).value
  }

  ghost predicate PlainSubst(s: Subst) {
    forall x | x in s :: Plain(s[x])
  }

  // -------------------------------------------------------------- auxiliary

  lemma {:induction false} OneSection(meta: Meta, items: seq<Value>)
    requires DotsFreeAll(items)
    ensures DotsIn(items) == [] && SectionsM(meta, items) == [Section(CompileAllM(meta, items))]
    decreases items
  {
    if items != [] {
      OneSection(meta, items[1..]);
      assert CompileAllM(meta, items) == [CompileM(meta, items[0])] + CompileAllM(meta, items[1..]);
    }
  }

  lemma {:induction false} NothingToApply(p: Value, s: Subst)
    ensures Apply(map[], p, s) == p
    decreases p
  {
    match p
    case Ptr(_, e) => NothingToApply(e, s);
    case Iface(_, e) => NothingToApply(e, s);
    case Slice(_, items) =>
      forall i | 0 <= i < |items| ensures Apply(map[], items[i], s) == items[i] { NothingToApply(items[i], s); }
      assert ApplyAll(map[], items, s) == items;
    case Struct(_, fields) =>
      forall i | 0 <= i < |fields| ensures Apply(map[], fields[i], s) == fields[i] { NothingToApply(fields[i], s); }
      assert ApplyAll(map[], fields, s) == fields;
    case _ =>
  }

  lemma {:induction false} HoldsEarlier(d: Env, d1: Env, s: Subst)
    requires Holds(d1, s)
    requires forall x | Bound(d, x).Some? :: d1.Value(MetaKey(x)) == d.Value(MetaKey(x))
    ensures Holds(d, s)
  {
    forall x | Bound(d, x).Some?
      ensures x in s && s[x] == Bound(d, x).value
    {
      assert Bound(d1, x) == Bound(d, x);
    }
  }

  // ------------------------------------------------------- one level of a tree

  ghost predicate InPlaceFrom(ps: seq<Value>, vs: seq<Value>, idx: nat) {
    idx + |ps| <= |vs| && forall i | 0 <= i < |ps| :: InPlace(ps[i], vs[idx + i])
  }

  /** Corresponding parts of trees in the same place are in the same place. */
  lemma {:induction false} PartsInPlace(p: Value, v: Value)
    requires WellTyped(p) && WellTyped(v) && InPlace(p, v)
    ensures p.Iface? && v.Iface? ==> InPlace(p.elem, v.elem)
    ensures (p.Ptr? ==> p.elem.Struct? && p.elem.t.StructT?) && (v.Ptr? ==> v.elem.Struct? && v.elem.t.StructT?)
    ensures p.Ptr? && v.Ptr? && p.elem.t == v.elem.t ==> p.t == v.t && InPlace(p.elem, v.elem)
    ensures (p.Slice? ==> p.t.SliceT?) && (p.Iface? ==> p.t.IfaceT?)
    ensures p.Slice? && v.Slice? && |p.items| <= |v.items| ==> InPlaceFrom(p.items, v.items, 0)
    ensures p.Struct? ==> p.t.StructT?
    ensures p.Struct? && v.Struct? && p.t == v.t ==>
      |p.fields| == |v.fields| && InPlaceFrom(p.fields, v.fields, 0)
  {
  }

  predicate IsVariable(meta: Meta, p: Value) {
    IdentName(p).Some? && IdentName(p).value in meta
  }

  lemma {:induction false} MatchPtr(meta: Meta, p: Value, v: Value, d: Env)
    requires p.Ptr? && !Cut(p.t) && !IsVariable(meta, p) && ForDots(p).None? && p.elem.Struct? && p.elem.t.StructT?
    ensures Match(CompileM(meta, p), v, d) == if v.Ptr? then Match(CompileM(meta, p.elem), v.elem, d) else None
    ensures v.Ptr? && v.elem.Struct? && p.elem.t != v.elem.t ==> Match(CompileM(meta, p), v, d).None?
  {
    assert CompileM(meta, p.elem) == StructM(p.elem.t, CompileAllM(meta, p.elem.fields));
  }

  lemma {:induction false} MatchSlice(meta: Meta, p: Value, v: Value, d: Env)
    requires p.Slice? && p.t.SliceT? && DotsFreeAll(p.items)
    ensures CompileM(meta, p) == SliceM(CompileAllM(meta, p.items))
    ensures Match(CompileM(meta, p), v, d) ==
      if !IsSlice(v) || |p.items| != |Items(v)| then None
      else if v.Slice? then MatchPrefix(CompileAllM(meta, p.items), v.items, d, 0) else Some(d)
  {
    OneSection(meta, p.items);
  }

  lemma {:induction false} MatchIface(meta: Meta, p: Value, v: Value, d: Env)
    requires p.Iface? && p.t.IfaceT?
    ensures Match(CompileM(meta, p), v, d) == if v.Iface? then Match(CompileM(meta, p.elem), v.elem, d) else None
  {
  }

  lemma {:induction false} MatchStruct(meta: Meta, p: Value, v: Value, d: Env)
    requires p.Struct? && p.t.StructT?
    ensures Match(CompileM(meta, p), v, d) ==
      if v.Struct? && p.t == v.t && |p.fields| == |v.fields|
      then MatchPrefix(CompileAllM(meta, p.fields), v.fields, d, 0) else None
  {
  }

  /** An identifier, as the parser builds it. */
  function Identifier(pos: Pos, name: string, obj: Value): Value {
    Ptr(IDENT_PTR, Struct(IDENT, [PosV(pos), Prim(STRING, Text(name)), obj]))
  }

  /**
   * The first occurrence of a metavariable: an expression metavariable stands for any pointer to an expression node, an
   * identifier metavariable for identifiers only, and whatever it stands for is what is captured.
   */
  lemma {:induction false} MetavariableStandsForItsSort(meta: Meta, pos: Pos, name: string, obj: Value, v: Value, d: Env)
    requires name in meta && Bound(d, name).None?
    ensures var r := Match(CompileM(meta, Identifier(pos, name, obj)), v, d);
      && (meta[name].ExprVar? ==> (r.Some? <==> TypeOf(v).PtrT? && TypeOf(v).elem.StructT? && TypeOf(v).elem.isExpr))
      && (meta[name].IdentVar? ==> (r.Some? <==> TypeOf(v) == IDENT_PTR))
      && (r.Some? ==> Bound(r.value, name) == Some(v))
  {
  }

  lemma {:induction false} NameMatches(pos: Pos, name: string, fields: seq<Value>, d: Env)
    requires |fields| == 3 && fields[0].PosV? && fields[0].pos.IsValid() && pos.IsValid()
    requires fields[1].Prim? && fields[1].t == STRING
    ensures MatchPrefix([PosM(pos), ValueM(STRING, Text(name)), SuccessM], fields, d, 0).Some? <==> fields[1].lit == Text(name)
  {
    var ms := [PosM(pos), ValueM(STRING, Text(name)), SuccessM];
    var d1 := Match(ms[0], fields[0], d).value;
    assert ms[1..] == [ms[1], SuccessM] && [ms[1], SuccessM][1..] == [SuccessM] && [SuccessM][1..] == [];
    assert MatchPrefix([SuccessM], fields, d1, 2) == MatchPrefix([], fields, d1, 3);
    assert MatchPrefix([ms[1], SuccessM], fields, d1, 1) ==
      if fields[1].lit == Text(name) then MatchPrefix([SuccessM], fields, d1, 2) else None;
    assert MatchPrefix(ms, fields, d, 0) == MatchPrefix([ms[1], SuccessM], fields, d1, 1);
  }

  /** Any other identifier stands for the identifiers of its name. */
  lemma {:induction false} OrdinaryNameStandsForItself(
      meta: Meta, pos: Pos, name: string, obj: Value, pos': Pos, name': string, obj': Value, d: Env)
    requires name !in meta && TypeOf(obj) == OBJECT_PTR && pos.IsValid() && pos'.IsValid()
    ensures Match(CompileM(meta, Identifier(pos, name, obj)), Identifier(pos', name', obj'), d).Some? <==> name' == name
  {
    var p, v := Identifier(pos, name, obj), Identifier(pos', name', obj');
    assert CompileM(meta, p) == PtrM(CompileM(meta, p.elem)) by { assert IdentName(p) == Some(name); }
    assert CompileAllM(meta, p.elem.fields) == [PosM(pos), ValueM(STRING, Text(name)), SuccessM];
    assert CompileM(meta, p.elem) == StructM(IDENT, [PosM(pos), ValueM(STRING, Text(name)), SuccessM]);
    hide CompileM, CompileAllM;
    NameMatches(pos, name, v.elem.fields, d);
  }

  predicate IsLeaf(p: Value) {
    Cut(TypeOf(p)) || p.Nil? || p.PosV? || p.Prim?
  }

  lemma {:induction false} LeafSolves(meta: Meta, p: Value, v: Value, d: Env, s: Subst)
    requires WellTyped(p) && WellTyped(v) && InPlace(p, v) && IsLeaf(p)
    requires Match(CompileM(meta, p), v, d).Some?
    ensures Solves(meta, p, s, v)
  {
  }

  lemma {:induction false} SolvesPtr(meta: Meta, p: Value, v: Value, s: Subst)
    requires p.Ptr? && v.Ptr? && p.t == v.t && !Cut(p.t) && !IsVariable(meta, p)
    ensures Solves(meta, p, s, v) <==> Solves(meta, p.elem, s, v.elem)
  {
  }

  lemma {:induction false} SolvesIface(meta: Meta, p: Value, v: Value, s: Subst)
    requires p.Iface? && v.Iface? && p.t == v.t && p.t.IfaceT?
    ensures Solves(meta, p, s, v) <==> Solves(meta, p.elem, s, v.elem)
  {
  }

  /** The items of a list from index idx on solve the patterns of ps, one each. */
  ghost predicate SolvesFrom(meta: Meta, ps: seq<Value>, s: Subst, vs: seq<Value>, idx: nat) {
    idx + |ps| == |vs| && forall i | 0 <= i < |ps| :: Solves(meta, ps[i], s, vs[idx + i])
  }

  lemma {:induction false} SolvesFirst(meta: Meta, ps: seq<Value>, s: Subst, vs: seq<Value>, idx: nat)
    requires ps != []
    ensures SolvesFrom(meta, ps, s, vs, idx) <==>
      idx < |vs| && Solves(meta, ps[0], s, vs[idx]) && SolvesFrom(meta, ps[1..], s, vs, idx + 1)
  {
    hide Solves;
    assert forall i | 1 <= i < |ps| :: ps[i] == ps[1..][i - 1];
    assert forall i | 0 <= i < |ps| - 1 :: ps[1..][i] == ps[i + 1];
    if idx < |vs| && Solves(meta, ps[0], s, vs[idx]) && SolvesFrom(meta, ps[1..], s, vs, idx + 1) {
      forall i | 0 <= i < |ps| ensures Solves(meta, ps[i], s, vs[idx + i]) {
        if i > 0 { assert Solves(meta, ps[1..][i - 1], s, vs[idx + 1 + (i - 1)]); }
      }
    }
    if SolvesFrom(meta, ps, s, vs, idx) {
      forall i | 0 <= i < |ps| - 1 ensures Solves(meta, ps[1..][i], s, vs[idx + 1 + i]) {
        assert Solves(meta, ps[i + 1], s, vs[idx + (i + 1)]);
      }
    }
  }

  lemma {:induction false} InPlaceTail(ps: seq<Value>, vs: seq<Value>, idx: nat)
    requires ps != [] && InPlaceFrom(ps, vs, idx)
    ensures InPlace(ps[0], vs[idx]) && InPlaceFrom(ps[1..], vs, idx + 1)
  {
    hide InPlace;
    assert InPlace(ps[0], vs[idx + 0]);
    forall i | 0 <= i < |ps| - 1 ensures InPlace(ps[1..][i], vs[idx + 1 + i]) {
      assert InPlace(ps[i + 1], vs[idx + (i + 1)]);
    }
  }

  lemma {:induction false} SolvesItems(meta: Meta, ps: seq<Value>, vs: seq<Value>, s: Subst)
    ensures SolvesFrom(meta, ps, s, vs, 0) <==>
      && (forall x | x in VarsAll(meta, ps) :: x in s && x in meta && Plain(s[x]) && (s[x].Nil? || Fits(meta[x], TypeOf(s[x]))))
      && EqAll(ApplyAll(meta, ps, s), vs)
  {
    hide Eq, Plain, Apply, Vars;
    if EqAll(ApplyAll(meta, ps, s), vs) {
      forall i | 0 <= i < |ps| ensures Eq(Apply(meta, ps[i], s), vs[i]) {
        assert ApplyAll(meta, ps, s)[i] == Apply(meta, ps[i], s);
      }
    }
  }

  lemma {:induction false} SolvesSlice(meta: Meta, p: Value, v: Value, s: Subst)
    requires p.Slice? && IsSlice(v) && p.t == v.t && p.t.SliceT?
    ensures Solves(meta, p, s, v) <==> SolvesFrom(meta, p.items, s, Items(v), 0)
  {
    SolvesItems(meta, p.items, Items(v), s);
  }

  lemma {:induction false} SolvesStruct(meta: Meta, p: Value, v: Value, s: Subst)
    requires p.Struct? && v.Struct? && p.t == v.t && p.t.StructT?
    ensures Solves(meta, p, s, v) <==> SolvesFrom(meta, p.fields, s, v.fields, 0)
  {
    SolvesItems(meta, p.fields, v.fields, s);
  }

  // --------------------------------------------------------------- soundness

  lemma {:induction false} SameStatic(p: Value, v: Value)
    requires InPlace(p, v) && !IsLeaf(p)
    ensures (p.Iface? && v.Iface?) || (p.Slice? && IsSlice(v)) ==> p.t == v.t
  {
  }

  /** A match solves the pattern with what it captured. */
  lemma {:induction false} MatchSolves(meta: Meta, p: Value, v: Value, d: Env, s: Subst)
    requires Plain(p) && Plain(v) && InPlace(p, v)
    requires Match(CompileM(meta, p), v, d).Some? && PlainEnv(d)
    requires Holds(Match(CompileM(meta, p), v, d).value, s) && PlainSubst(s)
    ensures Solves(meta, p, s, v)
    decreases if meta == map[] then 0 else 1, p, 2
  {
    hide WellTyped, DotsFree, Match, CompileM, Solves, IdentName, ForDots, Eq, Holds, PlainSubst, PlainEnv, PlainAll, DotsFreeAll;
    hide InPlace;
    if IsLeaf(p) {
      LeafSolves(meta, p, v, d, s);
    } else if IsVariable(meta, p) {
      VariableSolves(meta, p, v, d, s);
    } else if p.Slice? {
      SliceSolves(meta, p, v, d, s);
    } else if p.Struct? {
      StructSolves(meta, p, v, d, s);
    } else {
      PlainParts(p);
      PlainParts(v);
      PartsInPlace(p, v);
      SameStatic(p, v);
      if p.Ptr? {
        MatchPtr(meta, p, v, d);
        SolvesPtr(meta, p, v, s);
      } else {
        MatchIface(meta, p, v, d);
        SolvesIface(meta, p, v, s);
      }
      MatchSolves(meta, p.elem, v.elem, d, s);
    }
  }

  lemma {:induction false} SliceSolves(meta: Meta, p: Value, v: Value, d: Env, s: Subst)
    requires Plain(p) && Plain(v) && InPlace(p, v) && p.Slice? && !IsLeaf(p) && !IsVariable(meta, p)
    requires Match(CompileM(meta, p), v, d).Some? && PlainEnv(d)
    requires Holds(Match(CompileM(meta, p), v, d).value, s) && PlainSubst(s)
    ensures Solves(meta, p, s, v)
    decreases if meta == map[] then 0 else 1, p, 1
  {
    hide WellTyped, DotsFree, Match, CompileM, Solves, IdentName, ForDots, Eq, Holds, PlainSubst, PlainEnv, PlainAll, DotsFreeAll;
    hide InPlace, InPlaceFrom, IsVariable, MatchPrefix;
    PlainParts(p);
    PlainParts(v);
    PartsInPlace(p, v);
    SameStatic(p, v);
    MatchSlice(meta, p, v, d);
    SolvesSlice(meta, p, v, s);
    if v.Slice? {
      ItemsSolve(meta, p.items, v.items, d, 0, s);
    }
  }

  lemma {:induction false} StructSolves(meta: Meta, p: Value, v: Value, d: Env, s: Subst)
    requires Plain(p) && Plain(v) && InPlace(p, v) && p.Struct? && !IsLeaf(p) && !IsVariable(meta, p)
    requires Match(CompileM(meta, p), v, d).Some? && PlainEnv(d)
    requires Holds(Match(CompileM(meta, p), v, d).value, s) && PlainSubst(s)
    ensures Solves(meta, p, s, v)
    decreases if meta == map[] then 0 else 1, p, 1
  {
    hide WellTyped, DotsFree, Match, CompileM, Solves, IdentName, ForDots, Eq, Holds, PlainSubst, PlainEnv, PlainAll, DotsFreeAll;
    hide InPlace, InPlaceFrom, SolvesFrom, IsVariable, MatchPrefix;
    PlainParts(p);
    PlainParts(v);
    PartsInPlace(p, v);
    MatchStruct(meta, p, v, d);
    SolvesStruct(meta, p, v, s);
    ItemsSolve(meta, p.fields, v.fields, d, 0, s);
  }

  lemma {:induction false} VariableSolves(meta: Meta, p: Value, v: Value, d: Env, s: Subst)
    requires Plain(v) && IdentName(p).Some? && IdentName(p).value in meta
    requires Match(CompileM(meta, p), v, d).Some? && PlainEnv(d)
    requires Holds(Match(CompileM(meta, p), v, d).value, s) && PlainSubst(s)
    ensures Solves(meta, p, s, v)
    decreases if meta == map[] then 0 else 1, p, 0
  {
    var x := IdentName(p).value;
    assert Bound(Match(CompileM(meta, p), v, d).value, x) == Some(s[x]);
    if Bound(d, x).Some? {
      CapturedAgain(s[x], v);
    } else {
      EqRefl(v);
    }
  }

  /** A later occurrence of a metavariable matches only what equals the first capture. */
  lemma {:induction false} CapturedAgain(u: Value, v: Value)
    requires Plain(u) && Plain(v) && IsExpression(TypeOf(u)) && IsExpression(TypeOf(v))
    requires Match(CompileM(map[], u), v, New).Some?
    ensures Eq(u, v)
    decreases 0, u, 3
  {
    ClosedWithoutMeta(u);
    ClosedHasNoVars(CompileM(map[], u));
    var d := Match(CompileM(map[], u), v, New).value;
    forall y
      ensures Bound(d, y).None?
    {
      MatchKeeps(CompileM(map[], u), v, New, MetaKey(y));
    }
    MatchSolves(map[], u, v, New, map[]);
    NothingToApply(u, map[]);
  }

  lemma {:induction false} ItemsSolve(meta: Meta, ps: seq<Value>, vs: seq<Value>, d: Env, idx: nat, s: Subst)
    requires PlainAll(ps) && PlainAll(vs) && idx + |ps| == |vs| && InPlaceFrom(ps, vs, idx)
    requires MatchPrefix(CompileAllM(meta, ps), vs, d, idx).Some? && PlainEnv(d)
    requires Holds(MatchPrefix(CompileAllM(meta, ps), vs, d, idx).value, s) && PlainSubst(s)
    ensures SolvesFrom(meta, ps, s, vs, idx)
    decreases if meta == map[] then 0 else 1, ps, 0
  {
    hide WellTyped, DotsFree, Solves, CompileM, InPlace, InPlaceFrom;
    if ps != [] {
      InPlaceTail(ps, vs, idx);
      var ms := CompileAllM(meta, ps);
      assert ms[1..] == CompileAllM(meta, ps[1..]);
      var d1 := Match(ms[0], vs[idx], d).value;
      var d2 := MatchPrefix(ms[1..], vs, d1, idx + 1).value;
      forall x | Bound(d1, x).Some?
        ensures d2.Value(MetaKey(x)) == d1.Value(MetaKey(x))
      {
        PrefixKeeps(ms[1..], vs, d1, idx + 1, MetaKey(x));
      }
      HoldsEarlier(d1, d2, s);
      MatchSolves(meta, ps[0], vs[idx], d, s);
      MatchCapturesPlain(ms[0], vs[idx], d);
      ItemsSolve(meta, ps[1..], vs, d1, idx + 1, s);
      SolvesFirst(meta, ps, s, vs, idx);
    }
  }

  // ------------------------------------------------------------ completeness

  /** What d has captured equals what s says, up to `Eq`. */
  ghost predicate Agrees(d: Env, s: Subst) {
    forall x :: Bound(d, x).Some? ==> x in s && Plain(s[x]) && Eq(Bound(d, x).value, s[x])
  }

  lemma {:induction false} CanonicalParts(v: Value)
    requires Canonical(v)
    ensures v.Ptr? || v.Iface? ==> Canonical(v.elem)
    ensures v.Slice? ==> forall i | 0 <= i < |v.items| :: Canonical(v.items[i])
    ensures v.Struct? ==> forall i | 0 <= i < |v.fields| :: Canonical(v.fields[i])
  {
  }

  lemma {:induction false} LeafMatches(meta: Meta, p: Value, v: Value, d: Env, s: Subst)
    requires WellTyped(p) && WellTyped(v) && InPlace(p, v) && IsLeaf(p) && Canonical(v)
    requires Solves(meta, p, s, v)
    ensures Match(CompileM(meta, p), v, d).Some?
    ensures forall x :: Bound(Match(CompileM(meta, p), v, d).value, x) == Bound(d, x)
  {
  }

  lemma {:induction false} SameShape(meta: Meta, p: Value, v: Value, s: Subst)
    requires WellTyped(p) && WellTyped(v) && Solves(meta, p, s, v) && !IsLeaf(p) && !IsVariable(meta, p)
    ensures TypeOf(p) == TypeOf(v)
    ensures (p.Ptr? ==> v.Ptr?) && (p.Iface? ==> v.Iface?) && (p.Slice? ==> IsSlice(v)) && (p.Struct? ==> v.Struct?)
    ensures p.Ptr? && v.Ptr? ==> p.elem.Struct? && v.elem.Struct? && p.elem.t == v.elem.t
  {
  }

  /** On canonical targets, whatever solves the pattern is found, and the captures are the only solution. */
  lemma {:induction false} SolvedMatches(meta: Meta, p: Value, v: Value, d: Env, s: Subst)
    requires Plain(p) && Plain(v) && Canonical(v) && InPlace(p, v)
    requires PlainEnv(d) && Agrees(d, s) && Solves(meta, p, s, v)
    ensures Match(CompileM(meta, p), v, d).Some?
    ensures Agrees(Match(CompileM(meta, p), v, d).value, s)
    decreases if meta == map[] then 0 else 1, p, 2
  {
    hide WellTyped, DotsFree, Match, CompileM, Solves, IdentName, ForDots, Canonical, Bound, Eq, PlainAll, DotsFreeAll;
    if IsLeaf(p) {
      LeafMatches(meta, p, v, d, s);
    } else if IsVariable(meta, p) {
      SolvedVariable(meta, p, v, d, s);
    } else if p.Slice? {
      SolvedSlice(meta, p, v, d, s);
    } else if p.Struct? {
      SolvedStruct(meta, p, v, d, s);
    } else {
      PlainParts(p);
      PlainParts(v);
      CanonicalParts(v);
      PartsInPlace(p, v);
      SameShape(meta, p, v, s);
      if p.Ptr? {
        MatchPtr(meta, p, v, d);
        SolvesPtr(meta, p, v, s);
      } else {
        MatchIface(meta, p, v, d);
        SolvesIface(meta, p, v, s);
      }
      SolvedMatches(meta, p.elem, v.elem, d, s);
    }
  }

  lemma {:induction false} SolvedSlice(meta: Meta, p: Value, v: Value, d: Env, s: Subst)
    requires Plain(p) && Plain(v) && Canonical(v) && InPlace(p, v) && p.Slice? && !IsLeaf(p) && !IsVariable(meta, p)
    requires PlainEnv(d) && Agrees(d, s) && Solves(meta, p, s, v)
    ensures Match(CompileM(meta, p), v, d).Some?
    ensures Agrees(Match(CompileM(meta, p), v, d).value, s)
    decreases if meta == map[] then 0 else 1, p, 1
  {
    hide WellTyped, DotsFree, Match, CompileM, Solves, IdentName, ForDots, Canonical, Bound, Eq, Agrees, PlainAll, DotsFreeAll;
    hide InPlace, InPlaceFrom, PlainEnv, MatchPrefix, IsVariable;
    CanonicalParts(v);
    PlainParts(p);
    PlainParts(v);
    PartsInPlace(p, v);
    SameShape(meta, p, v, s);
    MatchSlice(meta, p, v, d);
    SolvesSlice(meta, p, v, s);
    if v.Slice? {
      SolvedItems(meta, p.items, v.items, d, 0, s);
    }
  }

  lemma {:induction false} SolvedStruct(meta: Meta, p: Value, v: Value, d: Env, s: Subst)
    requires Plain(p) && Plain(v) && Canonical(v) && InPlace(p, v) && p.Struct? && !IsLeaf(p) && !IsVariable(meta, p)
    requires PlainEnv(d) && Agrees(d, s) && Solves(meta, p, s, v)
    ensures Match(CompileM(meta, p), v, d).Some?
    ensures Agrees(Match(CompileM(meta, p), v, d).value, s)
    decreases if meta == map[] then 0 else 1, p, 1
  {
    hide WellTyped, DotsFree, Match, CompileM, Solves, IdentName, ForDots, Canonical, Bound, Eq, Agrees, PlainAll, DotsFreeAll;
    hide InPlace, InPlaceFrom, SolvesFrom, PlainEnv, MatchPrefix, IsVariable;
    CanonicalParts(v);
    PlainParts(p);
    PlainParts(v);
    PartsInPlace(p, v);
    SameShape(meta, p, v, s);
    MatchStruct(meta, p, v, d);
    SolvesStruct(meta, p, v, s);
    SolvedItems(meta, p.fields, v.fields, d, 0, s);
  }

  lemma {:induction false} MatchVariable(meta: Meta, p: Value, v: Value, d: Env)
    requires IsVariable(meta, p) && p.Ptr? && !Cut(p.t)
    ensures var (x, old_) := (IdentName(p).value, Bound(d, IdentName(p).value));
      Match(CompileM(meta, p), v, d) ==
        if !Fits(meta[x], TypeOf(v)) || (old_.Some? && Match(CompileM(map[], old_.value), v, New).None?) then None
        else Some(if old_.Some? then d else With(d, MetaKey(x), Captured(v)))
  {
    if Bound(d, IdentName(p).value).Some? {
      ClosedWithoutMeta(Bound(d, IdentName(p).value).value);
    }
  }

  lemma {:induction false} SolvesVariable(meta: Meta, p: Value, v: Value, s: Subst)
    requires IsVariable(meta, p) && InPlace(p, v) && Solves(meta, p, s, v) && Plain(v)
    ensures var x := IdentName(p).value;
      x in s && Plain(s[x]) && Eq(s[x], v) && Fits(meta[x], TypeOf(v)) && p.Ptr? && !Cut(p.t)
  {
    assert IdentName(p).value in Vars(meta, p);
  }

  lemma {:induction false} NoVariables(p: Value)
    ensures Vars(map[], p) == {}
    decreases p
  {
    match p
    case Ptr(_, e) => NoVariables(e);
    case Iface(_, e) => NoVariables(e);
    case Slice(_, items) => forall i | 0 <= i < |items| ensures Vars(map[], items[i]) == {} { NoVariables(items[i]); }
    case Struct(_, fields) => forall i | 0 <= i < |fields| ensures Vars(map[], fields[i]) == {} { NoVariables(fields[i]); }
    case _ =>
  }

  /** A captured tree, taken as a pattern, is solved by whatever equals it. */
  lemma {:induction false} SameAsCaptured(u: Value, v: Value, w: Value)
    requires Plain(u) && Plain(v) && IsExpression(TypeOf(u)) && Eq(u, w) && Eq(w, v)
    ensures InPlace(u, v) && Solves(map[], u, map[], v)
  {
    hide Apply, Vars, Plain;
    EqTrans(u, w, v);
    NothingToApply(u, map[]);
    NoVariables(u);
  }

  lemma {:induction false} SolvedVariable(meta: Meta, p: Value, v: Value, d: Env, s: Subst)
    requires Plain(v) && Canonical(v) && InPlace(p, v) && IsVariable(meta, p)
    requires PlainEnv(d) && Agrees(d, s) && Solves(meta, p, s, v)
    ensures Match(CompileM(meta, p), v, d).Some?
    ensures Agrees(Match(CompileM(meta, p), v, d).value, s)
    decreases if meta == map[] then 0 else 1, p, 0
  {
    hide WellTyped, DotsFree, Canonical, Eq, Match, CompileM, Solves, IdentName;
    var x := IdentName(p).value;
    SolvesVariable(meta, p, v, s);
    if Bound(d, x).Some? {
      var u := Bound(d, x).value;
      SameAsCaptured(u, v, s[x]);
      SolvedMatches(map[], u, v, New, map[]);
      MatchVariable(meta, p, v, d);
    } else {
      EqSym(s[x], v);
      MatchVariable(meta, p, v, d);
      var d1 := Match(CompileM(meta, p), v, d).value;
      forall y | Bound(d1, y).Some?
        ensures y in s && Plain(s[y]) && Eq(Bound(d1, y).value, s[y])
      {
        assert y == x || Bound(d1, y) == Bound(d, y);
      }
    }
  }

  lemma {:induction false} SolvedItems(meta: Meta, ps: seq<Value>, vs: seq<Value>, d: Env, idx: nat, s: Subst)
    requires PlainAll(ps) && PlainAll(vs) && InPlaceFrom(ps, vs, idx)
    requires forall i | 0 <= i < |vs| :: Canonical(vs[i])
    requires PlainEnv(d) && Agrees(d, s) && SolvesFrom(meta, ps, s, vs, idx)
    ensures MatchPrefix(CompileAllM(meta, ps), vs, d, idx).Some?
    ensures Agrees(MatchPrefix(CompileAllM(meta, ps), vs, d, idx).value, s)
    decreases if meta == map[] then 0 else 1, ps, 0
  {
    hide WellTyped, DotsFree, Solves, CompileM, InPlace, InPlaceFrom, SolvesFrom;
    if ps != [] {
      InPlaceTail(ps, vs, idx);
      SolvesFirst(meta, ps, s, vs, idx);
      var ms := CompileAllM(meta, ps);
      assert ms[1..] == CompileAllM(meta, ps[1..]);
      SolvedMatches(meta, ps[0], vs[idx], d, s);
      var d1 := Match(ms[0], vs[idx], d).value;
      MatchCapturesPlain(ms[0], vs[idx], d);
      SolvedItems(meta, ps[1..], vs, d1, idx + 1, s);
    }
  }

  // ------------------------------------------------------------ main results

  function Names(d: Env): set<string> {
    match d
    case New => {}
    case With(d, k, _) => Names(d) + if k.MetaKey? then {k.name} else {}
    case Indexed(_, items) => set k | k in items && k.MetaKey? :: k.name
  }

  /** The captured trees of an environment. */
  function Captures(d: Env): Subst {
    map x | x in Names(d) && Bound(d, x).Some? :: Bound(d, x).value
  }

  lemma {:induction false} BoundIsNamed(d: Env, x: string)
    ensures Bound(d, x).Some? ==> x in Names(d)
  {
    match d
    case With(parent, _, _) => BoundIsNamed(parent, x);
    case Indexed(_, items) => if MetaKey(x) in items { assert MetaKey(x).name == x; }
    case _ =>
  }

  /** Sound on every target: what was captured is a solution. */
  lemma {:induction false} MatchIsSound(meta: Meta, p: Value, v: Value)
    requires Plain(p) && Plain(v) && InPlace(p, v)
    requires Match(CompileM(meta, p), v, New).Some?
    ensures Solves(meta, p, Captures(Match(CompileM(meta, p), v, New).value), v)
  {
    var d := Match(CompileM(meta, p), v, New).value;
    var s := Captures(d);
    MatchCapturesPlain(CompileM(meta, p), v, New);
    forall x
      ensures Bound(d, x).Some? ==> x in s && s[x] == Bound(d, x).value
      ensures x in s ==> Plain(s[x])
    {
      BoundIsNamed(d, x);
    }
    MatchSolves(meta, p, v, New, s);
  }

  /**
   * Matching a pattern without `...` decides whether some assignment of trees of the right sort to the metavariables
   * makes the pattern equal to the target.
   */
  lemma {:induction false} MatchingIsUnification(meta: Meta, p: Value, v: Value)
    requires Plain(p) && Plain(v) && InPlace(p, v) && Canonical(v)
    ensures Match(CompileM(meta, p), v, New).Some? <==> exists s :: Solves(meta, p, s, v)
  {
    if Match(CompileM(meta, p), v, New).Some? {
      MatchIsSound(meta, p, v);
    }
    if s: Subst :| Solves(meta, p, s, v) {
      SolvedMatches(meta, p, v, New, s);
    }
  }

  /** Substitutions that make a pattern equal to the same tree agree on its metavariables. */
  lemma {:induction false} SolutionsAgree(meta: Meta, p: Value, s: Subst, r: Subst, x: string)
    requires Eq(Apply(meta, p, s), Apply(meta, p, r)) && x in Vars(meta, p) && x in s && x in r
    ensures Eq(s[x], r[x])
    decreases p
  {
    match p
    case Ptr(_, e) => if !IsVariable(meta, p) { SolutionsAgree(meta, e, s, r, x); }
    case Iface(_, e) => SolutionsAgree(meta, e, s, r, x);
    case Slice(_, items) =>
      var i :| 0 <= i < |items| && x in Vars(meta, items[i]);
      assert Eq(ApplyAll(meta, items, s)[i], ApplyAll(meta, items, r)[i]);
      SolutionsAgree(meta, items[i], s, r, x);
    case Struct(_, fields) =>
      var i :| 0 <= i < |fields| && x in Vars(meta, fields[i]);
      assert Eq(ApplyAll(meta, fields, s)[i], ApplyAll(meta, fields, r)[i]);
      SolutionsAgree(meta, fields[i], s, r, x);
  }

  /** The solution is unique up to `Eq`: wherever the pattern matches, any solution agrees with the captures. */
  lemma {:induction false} CapturesAreUnique(meta: Meta, p: Value, v: Value, s: Subst, x: string)
    requires Plain(p) && Plain(v) && InPlace(p, v) && Match(CompileM(meta, p), v, New).Some?
    requires Solves(meta, p, s, v) && x in Vars(meta, p)
    ensures Bound(Match(CompileM(meta, p), v, New).value, x).Some?
    ensures Eq(Bound(Match(CompileM(meta, p), v, New).value, x).value, s[x])
  {
    hide Match, CompileM, Plain, Eq, InPlace, Apply;
    MatchIsSound(meta, p, v);
    var r := Captures(Match(CompileM(meta, p), v, New).value);
    EqSym(Apply(meta, p, s), v);
    EqTrans(Apply(meta, p, r), v, Apply(meta, p, s));
    SolutionsAgree(meta, p, r, s, x);
  }

  lemma {:induction false} BoundIsPlain(d: Env, x: string)
    requires PlainEnv(d) && Bound(d, x).Some?
    ensures Plain(Bound(d, x).value) && IsExpression(TypeOf(Bound(d, x).value))
  {
  }

  lemma {:induction false} EqInPlace(u: Value, v: Value)
    requires Eq(u, v)
    ensures InPlace(u, v)
  {
  }

  /** Captured code is compared as it stands: its identifiers mean themselves even where they name metavariables. */
  lemma {:induction false} CapturedCodeIsLiteral(u: Value, v: Value)
    requires Plain(u) && Plain(v) && InPlace(u, v) && Canonical(v)
    ensures Match(CompileM(map[], u), v, New).Some? <==> Eq(u, v)
  {
    if Match(CompileM(map[], u), v, New).Some? {
      MatchIsSound(map[], u, v);
      NothingToApply(u, Captures(Match(CompileM(map[], u), v, New).value));
    }
    if Eq(u, v) {
      NothingToApply(u, map[]);
      NoVariables(u);
      SolvedMatches(map[], u, v, New, map[]);
    }
  }

  /** A metavariable that is bound stands for what equals its capture; being bound twice is no way around its sort. */
  lemma {:induction false} BoundMetavariableStandsForItsCapture(
      meta: Meta, pos: Pos, name: string, obj: Value, v: Value, d: Env)
    requires name in meta && Bound(d, name).Some? && PlainEnv(d) && Plain(v) && Canonical(v)
    ensures var u := Bound(d, name).value;
      Match(CompileM(meta, Identifier(pos, name, obj)), v, d).Some? <==>
        && Eq(u, v)
        && (if meta[name].IdentVar? then TypeOf(v) == IDENT_PTR
            else TypeOf(v).PtrT? && TypeOf(v).elem.StructT? && TypeOf(v).elem.isExpr)
  {
    hide Match, CompileM, WellTyped, DotsFree, Canonical, Eq, PlainEnv;
    var u := Bound(d, name).value;
    assert Plain(u) && IsExpression(TypeOf(u)) by { BoundIsPlain(d, name); }
    assert IdentName(Identifier(pos, name, obj)) == Some(name);
    MatchVariable(meta, Identifier(pos, name, obj), v, d);
    if Eq(u, v) {
      EqInPlace(u, v);
      CapturedCodeIsLiteral(u, v);
    } else if IsExpression(TypeOf(v)) && Match(CompileM(map[], u), v, New).Some? {
      CapturedAgain(u, v);
    }
  }

  /** Without canonical targets only soundness is left: a nil list in the pattern does not match an empty one. */
  lemma {:induction false} EmptyIsNotNil()
    ensures exists p, v :: Plain(p) && Plain(v) && InPlace(p, v) && Solves(map[], p, map[], v)
              && Match(CompileM(map[], p), v, New).None?
  {
    var t := SliceT(IDENT_PTR);
    assert Solves(map[], Nil(t), map[], Slice(t, []));
    assert Plain(Slice(t, []));
    assert Match(CompileM(map[], Nil(t)), Slice(t, []), New).None?;
  }
}
