/** Where matching decides equality: exactly on trees as the parser builds them. */
module CanonicalTrees {
  import opened Wrappers
  import opened Data
  import opened Tree
  import opened Engine
  import opened Capture
  import opened Unify
  import NoOp

  /** The tree as the parser would have built it: empty lists are nil where no `...` can stand. */
  function Nilled(v: Value): (r: Value)
    decreases v
  {
    match v
    case Ptr(t, e) => Ptr(t, Nilled(e))
    case Iface(t, e) => Iface(t, Nilled(e))
    case Slice(t, items) => if items == [] && !Elidable(t) then Nil(t) else Slice(t, NilledAll(items))
    case Struct(t, fields) => Struct(t, NilledAll(fields))
    case _ => v
  }

  function NilledAll(vs: seq<Value>): (r: seq<Value>)
    ensures |r| == |vs|
    decreases vs
  {
    seq(|vs|, i requires 0 <= i < |vs| => Nilled(vs[i]))
  }

  /** The two trees differ in nothing that the engine looks at. */
  lemma {:induction false} NilledIsEqual(v: Value)
    requires WellTyped(v)
    ensures WellTyped(Nilled(v)) && TypeOf(Nilled(v)) == TypeOf(v) && Eq(Nilled(v), v)
    decreases v
  {
    match v
    case Ptr(_, e) => NilledIsEqual(e);
    case Iface(_, e) => NilledIsEqual(e);
    case Slice(_, items) => NilledItems(items);
    case Struct(_, fields) => NilledItems(fields);
    case _ =>
  }

  lemma {:induction false} NilledItems(vs: seq<Value>)
    requires NoOp.WellTypedAll(vs)
    ensures forall i | 0 <= i < |vs| ::
      WellTyped(NilledAll(vs)[i]) && TypeOf(NilledAll(vs)[i]) == TypeOf(vs[i]) && Eq(NilledAll(vs)[i], vs[i])
    decreases vs
  {
    forall i | 0 <= i < |vs|
      ensures WellTyped(NilledAll(vs)[i]) && TypeOf(NilledAll(vs)[i]) == TypeOf(vs[i]) && Eq(NilledAll(vs)[i], vs[i])
    {
      NilledIsEqual(vs[i]);
    }
  }

  lemma {:induction false} NilledIsDotsFree(v: Value)
    requires Plain(v)
    ensures DotsFree(Nilled(v))
    decreases v
  {
    PlainParts(v);
    NilledIsEqual(v);
    match v
    case Ptr(t, e) =>
      NilledIsDotsFree(e);
      if !Cut(t) {
        EqSym(Nilled(v), v);
        NoOp.SamePtr(v, Nilled(v));
      }
    case Iface(_, e) => NilledIsDotsFree(e);
    case Slice(_, items) =>
      forall i | 0 <= i < |items| ensures DotsItem(Nilled(items[i])).None? && DotsFree(Nilled(items[i])) {
        NilledIsDotsFree(items[i]);
        NilledIsEqual(items[i]);
        NoOp.SameDotsItem(Nilled(items[i]), items[i]);
      }
    case Struct(_, fields) => forall i | 0 <= i < |fields| ensures DotsFree(Nilled(fields[i])) { NilledIsDotsFree(fields[i]); }
    case _ =>
  }

  lemma {:induction false} TypedParts(v: Value)
    requires WellTyped(v)
    ensures (v.Slice? ==> v.t.SliceT?) && (v.Iface? ==> v.t.IfaceT?) && (v.Struct? ==> v.t.StructT?)
    ensures v.Ptr? ==> v.elem.Struct? && v.elem.t.StructT?
  {
  }

  lemma {:induction false} NilMatches(t: Type, v: Value, d: Env)
    requires !Elidable(t) && !Cut(t)
    ensures Match(CompileM(map[], Nil(t)), v, d).Some? <==> v.Nil?
  {
  }

  /** Objects and comments hold no lists. */
  lemma {:induction false} CutIsCanonical(v: Value)
    requires WellTyped(v) && Cut(TypeOf(v))
    ensures Canonical(v)
  {
    if v.Ptr? {
      assert WellTyped(v.elem) && |v.elem.fields| == 1 && WellTyped(v.elem.fields[0]) && TypeOf(v.elem.fields[0]) == STRING;
    }
  }

  /** As a pattern, the tree with nil lists matches no tree in which one of these lists is not nil. */
  lemma {:induction false} NilledMatches(v: Value, d: Env)
    requires Plain(v) && Match(CompileM(map[], Nilled(v)), v, d).Some?
    ensures Canonical(v)
    decreases v, 1
  {
    hide WellTyped, DotsFree, Match, CompileM, IdentName, ForDots, Eq;
    var p := Nilled(v);
    NilledIsEqual(v);
    NilledIsDotsFree(v);
    PlainParts(v);
    PlainParts(p);
    TypedParts(v);
    if Cut(TypeOf(v)) {
      CutIsCanonical(v);
    } else {
      match v
      case Ptr(_, e) =>
        TypedParts(p);
        MatchPtr(map[], p, v, d);
        NilledMatches(e, d);
      case Iface(_, e) =>
        MatchIface(map[], p, v, d);
        NilledMatches(e, d);
      case Slice(t, items) =>
        if items == [] && !Elidable(t) {
          NilMatches(t, v, d);
        } else {
          MatchSlice(map[], p, v, d);
          NilledItemsMatch(items, d, 0);
        }
      case Struct(_, fields) =>
        MatchStruct(map[], p, v, d);
        NilledItemsMatch(fields, d, 0);
      case _ =>
    }
  }

  lemma {:induction false} NilledItemsMatch(vs: seq<Value>, d: Env, idx: nat)
    requires PlainAll(vs) && idx <= |vs| && MatchPrefix(CompileAllM(map[], NilledAll(vs)[idx..]), vs, d, idx).Some?
    ensures forall i | idx <= i < |vs| :: Canonical(vs[i])
    decreases vs, 0, |vs| - idx
  {
    hide DotsFree, WellTyped, CompileM, Match, Canonical;
    if idx < |vs| {
      var ps := NilledAll(vs)[idx..];
      assert CompileAllM(map[], ps)[1..] == CompileAllM(map[], ps[1..]) && ps[1..] == NilledAll(vs)[idx + 1..];
      NilledMatches(vs[idx], d);
      NilledItemsMatch(vs, Match(CompileM(map[], Nilled(vs[idx])), vs[idx], d).value, idx + 1);
    }
  }

  /** Matching finds out whether the pattern's metavariables can be solved. */
  ghost predicate Decides(meta: Meta, p: Value, v: Value) {
    Match(CompileM(meta, p), v, New).Some? <==> exists s :: Solves(meta, p, s, v)
  }

  lemma {:induction false} EqualIsSolved(p: Value, v: Value)
    requires Eq(p, v)
    ensures Solves(map[], p, map[], v)
  {
    NothingToApply(p, map[]);
    NoVariables(p);
  }

  /**
   * The trees on which matching, for every pattern, decides whether the pattern's metavariables can be solved are exactly
   * those with nil for every empty list in which no `...` can stand.
   */
  lemma {:induction false} MatchingDecidesExactlyOnCanonicalTrees(v: Value)
    requires Plain(v)
    ensures Canonical(v) <==>
      forall meta: Meta, p | Plain(p) && InPlace(p, v) :: Decides(meta, p, v)
  {
    hide WellTyped, DotsFree, Match, CompileM, Eq, Canonical, Solves;
    if Canonical(v) {
      forall meta: Meta, p | Plain(p) && InPlace(p, v) ensures Decides(meta, p, v) {
        MatchingIsUnification(meta, p, v);
      }
    } else {
      var p := Nilled(v);
      NilledIsEqual(v);
      NilledIsDotsFree(v);
      EqualIsSolved(p, v);
      if Match(CompileM(map[], p), v, New).Some? {
        NilledMatches(v, New);
        assert false;
      }
      assert !Decides(map[], p, v);
    }
  }
}
