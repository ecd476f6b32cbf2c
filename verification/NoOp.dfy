/** A patch whose two sides are the same does nothing. */
module NoOp {
  import opened Wrappers
  import opened Data
  import opened Tree
  import opened Engine
  import opened Capture
  import opened Elision
  import opened TypedCaptures
  import Unify

  // ------------------------------------------------------------------ the same code, typed

  /** Equal trees of the same type, both of which the Go type system admits. */
  ghost predicate Same(v: Value, w: Value) {
    WellTyped(v) && WellTyped(w) && TypeOf(v) == TypeOf(w) && Eq(v, w)
  }

  ghost predicate SameAll(vs: seq<Value>, ws: seq<Value>) {
    |vs| == |ws| && forall i | 0 <= i < |vs| :: Same(vs[i], ws[i])
  }

  /** Pattern and target stand in the same place: they have the same type, or are nodes inside an interface. */
  ghost predicate Facing(p: Value, v: Value) {
    TypeOf(p) == TypeOf(v) || (p.Ptr? && v.Ptr? && !Cut(p.t) && !Cut(v.t))
  }

  ghost predicate FacingFrom(ps: seq<Value>, vs: seq<Value>, idx: nat) {
    idx + |ps| <= |vs| && forall i | 0 <= i < |ps| :: TypeOf(ps[i]) == TypeOf(vs[idx + i])
  }

  ghost predicate FacingAll(ps: seq<Value>, vs: seq<Value>) {
    forall i, j | 0 <= i < |ps| && 0 <= j < |vs| :: TypeOf(ps[i]) == TypeOf(vs[j])
  }

  /** Captures are ordinary expressions, and nil only where a name stands. */
  ghost predicate Sane(d: Env) {
    PlainEnv(d) && NilsAreNames(d)
  }

  lemma {:induction false} SamePlaceOfTypes(p: Value, v: Value)
    requires Facing(p, v)
    ensures Unify.InPlace(p, v)
  {
  }

  lemma {:induction false} SameRefl(v: Value)
    requires WellTyped(v)
    ensures Same(v, v)
  {
    EqRefl(v);
  }

  ghost predicate WellTypedAll(vs: seq<Value>) {
    forall i | 0 <= i < |vs| :: WellTyped(vs[i])
  }

  lemma {:induction false} SamePtrOf(r: Value, v: Value)
    requires WellTyped(v) && v.Ptr? && Same(r, v.elem)
    ensures Same(Ptr(v.t, r), v)
  {
  }

  lemma {:induction false} SameIfaceOf(r: Value, v: Value)
    requires WellTyped(v) && v.Iface? && Same(r, v.elem)
    ensures Same(Iface(v.t, r), v)
  {
  }

  lemma {:induction false} SameStructOf(rs: seq<Value>, v: Value)
    requires WellTyped(v) && v.Struct? && SameAll(rs, v.fields)
    ensures Same(Struct(v.t, rs), v)
  {
    var r := Struct(v.t, rs);
    assert WellTyped(r) by {
      forall i | 0 <= i < |rs| ensures TypeOf(rs[i]) == v.t.layout[i] && WellTyped(rs[i]) { assert Same(rs[i], v.fields[i]); }
    }
    assert EqAll(rs, v.fields) by {
      forall i | 0 <= i < |rs| ensures Eq(rs[i], v.fields[i]) { assert Same(rs[i], v.fields[i]); }
    }
  }

  lemma {:induction false} SameSliceOf(rs: seq<Value>, v: Value)
    requires WellTyped(v) && IsSlice(v) && SameAll(rs, Items(v))
    ensures Same(Slice(v.t, rs), v) && (rs == [] ==> Same(Nil(v.t), v))
  {
    var r := Slice(v.t, rs);
    assert WellTyped(r) by {
      forall i | 0 <= i < |rs| ensures TypeOf(rs[i]) == v.t.elem && WellTyped(rs[i]) { assert Same(rs[i], Items(v)[i]); }
    }
    assert EqAll(rs, Items(v)) by {
      forall i | 0 <= i < |rs| ensures Eq(rs[i], Items(v)[i]) { assert Same(rs[i], Items(v)[i]); }
    }
  }

  // ------------------------------------------------------- captured code is reproduced

  lemma {:induction false} OneSectionR(meta: Meta, items: seq<Value>)
    requires DotsFreeAll(items)
    ensures DotsIn(items) == [] && SectionsR(meta, items) == [Section(CompileAllR(meta, items))]
    decreases items
  {
    if items != [] {
      OneSectionR(meta, items[1..]);
      assert CompileAllR(meta, items) == [CompileR(meta, items[0])] + CompileAllR(meta, items[1..]);
    }
  }

  lemma {:induction false} ListReproduced(u: Value, pos: Pos)
    requires WellTyped(u) && ((u.Slice? && u.t.SliceT? && DotsFreeAll(u.items)) || (u.Struct? && u.t.StructT?))
    requires var r := ReplaceAll(CompileAllR(map[], if u.Slice? then u.items else u.fields), New, map[], pos);
      r.Some? && SameAll(r.value, if u.Slice? then u.items else u.fields)
    ensures Replace(CompileR(map[], u), New, map[], pos).Some?
    ensures Same(Replace(CompileR(map[], u), New, map[], pos).value, u)
  {
    hide ReplaceAll, CompileAllR, DotsFreeAll, SameAll, Same, WellTyped, Eq;
    var rs := ReplaceAll(CompileAllR(map[], if u.Slice? then u.items else u.fields), New, map[], pos).value;
    if u.Slice? {
      OneSectionR(map[], u.items);
      SameSliceOf(rs, u);
    } else {
      SameStructOf(rs, u);
    }
  }

  /** What a metavariable has captured is reproduced, up to `Eq`. */
  lemma {:induction false} CaptureIsReproduced(u: Value, pos: Pos)
    requires Plain(u) && pos.IsValid()
    ensures Replace(CompileR(map[], u), New, map[], pos).Some?
    ensures Same(Replace(CompileR(map[], u), New, map[], pos).value, u)
    decreases u, 1
  {
    PlainParts(u);
    match u
    case Ptr(t, e) => if !Cut(t) { CaptureIsReproduced(e, pos); }
    case Iface(_, e) => CaptureIsReproduced(e, pos);
    case Slice(_, items) => CapturesAreReproduced(items, pos); ListReproduced(u, pos);
    case Struct(_, fields) => CapturesAreReproduced(fields, pos); ListReproduced(u, pos);
    case _ =>
  }

  lemma {:induction false} CapturesAreReproduced(us: seq<Value>, pos: Pos)
    requires PlainAll(us) && pos.IsValid()
    ensures ReplaceAll(CompileAllR(map[], us), New, map[], pos).Some?
    ensures SameAll(ReplaceAll(CompileAllR(map[], us), New, map[], pos).value, us)
    decreases us, 0
  {
    if us != [] {
      CaptureIsReproduced(us[0], pos);
      CapturesAreReproduced(us[1..], pos);
      assert CompileAllR(map[], us)[1..] == CompileAllR(map[], us[1..]);
    }
  }

  // ------------------------------------------------------------------ statements rebuilt

  lemma {:induction false} OthersPutBack(fields: seq<Value>, idx: nat, onto: seq<Value>)
    requires |fields| <= |onto|
    ensures forall i | 0 <= i < |onto| ::
      SetAll(onto, OthersOf(fields, idx))[i] == if i < |fields| && i != idx then fields[i] else onto[i]
  {
    if fields != [] {
      var last := |fields| - 1;
      OthersPutBack(fields[..last], idx, onto);
      var others := OthersOf(fields, idx);
      if last != idx {
        assert others[..|others| - 1] == OthersOf(fields[..last], idx);
      } else {
        assert others == OthersOf(fields[..last], idx);
      }
    }
  }

  /** A statement taken apart around its body and rebuilt with another body differs in the body only. */
  lemma {:induction false} AroundRebuilt(t: Type, fields: seq<Value>, idx: nat, body: Value)
    requires t.StructT? && |fields| == |t.layout| && idx < |fields|
    ensures Rebuild(Around(t, idx, OthersOf(fields, idx)), body) == Some(Ptr(PtrT(t), Struct(t, fields[idx := body])))
  {
    var zero := Zero(t).fields;
    OthersPutBack(fields, idx, zero);
    assert SetAll(zero, OthersOf(fields, idx))[idx := body] == fields[idx := body];
  }

  // -------------------------------------------------------------------- bookkeeping

  /** From d1 to d2 nothing changed but metavariables that were unbound, positions, and the `...`s in `dots`. */
  ghost predicate Kept(d1: Env, d2: Env, dots: set<Pos>) {
    && (forall x :: Bound(d1, x).Some? ==> Bound(d2, x) == Bound(d1, x))
    && (forall p :: p !in dots ==> d2.Value(DotsKey(p)) == d1.Value(DotsKey(p)) && d2.Value(ForKey(p)) == d1.Value(ForKey(p)))
  }

  /** d2 still knows the captures of d1 and what d1 recorded for the `...`s in `dots`. */
  ghost predicate Survives(d1: Env, d2: Env, dots: set<Pos>) {
    && (forall x :: Bound(d1, x).Some? ==> Bound(d2, x) == Bound(d1, x))
    && (forall p :: p in dots ==> d2.Value(DotsKey(p)) == d1.Value(DotsKey(p)) && d2.Value(ForKey(p)) == d1.Value(ForKey(p)))
  }

  lemma {:induction false} SurvivesEarlier(d: Env, d1: Env, d2: Env, touched: set<Pos>, dots: set<Pos>, all: set<Pos>)
    requires Kept(d, d1, touched) && Survives(d1, d2, all)
    requires dots <= all && dots !! touched
    ensures Survives(d, d2, dots)
  {
    forall x | Bound(d, x).Some? ensures Bound(d2, x) == Bound(d, x) {
      assert Bound(d1, x) == Bound(d, x);
    }
  }

  lemma {:induction false} MatchKept(m: Matcher, got: Value, d: Env)
    requires Match(m, got, d).Some?
    ensures Kept(d, Match(m, got, d).value, DotsM(m))
  {
    var d1 := Match(m, got, d).value;
    forall x | Bound(d, x).Some? ensures Bound(d1, x) == Bound(d, x) { MatchKeeps(m, got, d, MetaKey(x)); }
    forall p | p !in DotsM(m)
      ensures d1.Value(DotsKey(p)) == d.Value(DotsKey(p)) && d1.Value(ForKey(p)) == d.Value(ForKey(p))
    {
      MatchKeeps(m, got, d, DotsKey(p));
      MatchKeeps(m, got, d, ForKey(p));
    }
  }

  lemma {:induction false} PrefixKept(want: seq<Matcher>, got: seq<Value>, d: Env, idx: nat)
    requires idx <= |got| && MatchPrefix(want, got, d, idx).Some?
    ensures Kept(d, MatchPrefix(want, got, d, idx).value, DotsAllM(want))
  {
    var d1 := MatchPrefix(want, got, d, idx).value;
    forall x | Bound(d, x).Some? ensures Bound(d1, x) == Bound(d, x) { PrefixKeeps(want, got, d, idx, MetaKey(x)); }
    forall p | p !in DotsAllM(want)
      ensures d1.Value(DotsKey(p)) == d.Value(DotsKey(p)) && d1.Value(ForKey(p)) == d.Value(ForKey(p))
    {
      PrefixKeeps(want, got, d, idx, DotsKey(p));
      PrefixKeeps(want, got, d, idx, ForKey(p));
    }
  }

  lemma {:induction false} SectionsKept(sections: seq<Section<Matcher>>, dots: seq<Pos>, got: seq<Value>, d: Env, idx: nat)
    requires |sections| == |dots| && idx <= |got| && FindSections(sections, dots, got, d, idx).Some?
    ensures Kept(d, FindSections(sections, dots, got, d, idx).value.1, DotsSecsM(sections) + SetOf(dots))
  {
    var d1 := FindSections(sections, dots, got, d, idx).value.1;
    forall x | Bound(d, x).Some? ensures Bound(d1, x) == Bound(d, x) {
      SectionsKeep(sections, dots, got, d, idx, MetaKey(x));
    }
    forall p | p !in DotsSecsM(sections) + SetOf(dots)
      ensures d1.Value(DotsKey(p)) == d.Value(DotsKey(p)) && d1.Value(ForKey(p)) == d.Value(ForKey(p))
    {
      SectionsKeep(sections, dots, got, d, idx, DotsKey(p));
      SectionsKeep(sections, dots, got, d, idx, ForKey(p));
    }
  }

  /** A compiled pattern records runs for the `...`s of the pattern only. */
  lemma {:induction false} CompiledDots(meta: Meta, p: Value, a: Pos)
    ensures a in DotsM(CompileM(meta, p)) ==> a in DotsOf(p)
    decreases p, 1
  {
    if !Cut(TypeOf(p)) {
      match p
      case Ptr(_, e) => CompiledDots(meta, e, a); if ForDots(p).Some? { CompiledDots(meta, e.fields[4], a); }
      case Iface(_, e) => CompiledDots(meta, e, a);
      case Slice(t, items) =>
        if Elidable(t) {
          CompiledDotsSections(meta, items, a);
          var sections := SectionsM(meta, items);
          if |sections| == 1 { assert DotsSecsM(sections) == DotsAllM(sections[0].items) + DotsSecsM(sections[1..]); }
        } else {
          CompiledDotsAll(meta, items, a);
        }
      case Struct(_, fields) => CompiledDotsAll(meta, fields, a);
      case _ =>
    }
  }

  lemma {:induction false} CompiledDotsAll(meta: Meta, ps: seq<Value>, a: Pos)
    ensures a in DotsAllM(CompileAllM(meta, ps)) ==> a in DotsOfAll(false, ps)
    decreases ps, 0
  {
    if ps != [] {
      CompiledDots(meta, ps[0], a);
      CompiledDotsAll(meta, ps[1..], a);
      assert CompileAllM(meta, ps)[1..] == CompileAllM(meta, ps[1..]);
    }
  }

  lemma {:induction false} CompiledDotsSections(meta: Meta, ps: seq<Value>, a: Pos)
    ensures a in DotsSecsM(SectionsM(meta, ps)) || a in DotsIn(ps) ==> a in DotsOfAll(true, ps)
    decreases ps, 0
  {
    hide DotsM, CompileM, DotsOf, DotsItem;
    if ps == [] {
      assert SectionsM(meta, ps)[1..] == [];
      assert DotsSecsM(SectionsM(meta, ps)) == DotsAllM([]) + DotsSecsM([]);
    } else {
      var rest, sections := SectionsM(meta, ps[1..]), SectionsM(meta, ps);
      CompiledDotsSections(meta, ps[1..], a);
      CompiledDots(meta, ps[0], a);
      if DotsItem(ps[0]).Some? {
        assert sections[0].items == [] && sections[1..] == rest;
        assert DotsSecsM(sections) == DotsAllM([]) + DotsSecsM(rest);
        assert DotsIn(ps) == [DotsItem(ps[0]).value] + DotsIn(ps[1..]);
        assert DotsOfAll(true, ps) == [DotsItem(ps[0]).value] + DotsOfAll(true, ps[1..]);
      } else {
        assert sections[1..] == rest[1..];
        assert sections[0].items[1..] == rest[0].items;
        assert DotsAllM(sections[0].items) == DotsM(CompileM(meta, ps[0])) + DotsAllM(rest[0].items);
        assert DotsSecsM(rest) == DotsAllM(rest[0].items) + DotsSecsM(rest[1..]);
      }
    }
  }

  // -------------------------------------------------------- the two sides of a patch

  /** Each `...` of the plus side is associated with the one at the same place of the minus side. */
  ghost predicate Linked(assoc: Assoc, minus: seq<Pos>, plus: seq<Pos>) {
    |minus| == |plus| && forall i | 0 <= i < |plus| :: Partner(assoc, plus[i]) == minus[i]
  }

  lemma {:induction false} SplitLinked(assoc: Assoc, m1: seq<Pos>, m2: seq<Pos>, p1: seq<Pos>, p2: seq<Pos>)
    requires Linked(assoc, m1 + m2, p1 + p2) && |m1| == |p1|
    ensures Linked(assoc, m1, p1) && Linked(assoc, m2, p2)
  {
    forall i | 0 <= i < |p1| ensures Partner(assoc, p1[i]) == m1[i] { assert (p1 + p2)[i] == p1[i]; }
    forall i | 0 <= i < |p2| ensures Partner(assoc, p2[i]) == m2[i] { assert (p1 + p2)[|p1| + i] == p2[i]; }
  }

  lemma {:induction false} SplitDistinct(a: seq<Pos>, b: seq<Pos>)
    requires Distinct(a + b)
    ensures Distinct(a) && Distinct(b) && SetOf(a) !! SetOf(b)
    ensures SetOf(a) <= SetOf(a + b) && SetOf(b) <= SetOf(a + b)
  {
    var ab := a + b;
    assert forall i | 0 <= i < |a| :: ab[i] == a[i];
    assert forall i | 0 <= i < |b| :: ab[|a| + i] == b[i];
  }

  /** Two levels of equal trees: a pointer and the fields behind it. */
  lemma {:induction false} PtrFields(p: Value, q: Value)
    requires WellTyped(p) && WellTyped(q) && Eq(p, q) && p.Ptr? && !Cut(p.t)
    ensures q.Ptr? && q.t == p.t && p.elem.Struct? && q.elem.Struct? && p.t.PtrT? && p.t.elem.StructT?
    ensures p.elem.t == p.t.elem == q.elem.t && |p.elem.fields| == |p.t.elem.layout| == |q.elem.fields|
    ensures forall i | 0 <= i < |p.elem.fields| ::
      && WellTyped(p.elem.fields[i]) && WellTyped(q.elem.fields[i]) && Eq(p.elem.fields[i], q.elem.fields[i])
      && TypeOf(p.elem.fields[i]) == p.t.elem.layout[i] == TypeOf(q.elem.fields[i])
  {
    assert WellTyped(p.elem) && WellTyped(q.elem) && Eq(p.elem, q.elem);
    assert EqAll(p.elem.fields, q.elem.fields);
  }

  /** An interface and the pointer in it. */
  lemma {:induction false} IfaceElem(p: Value, q: Value)
    requires WellTyped(p) && WellTyped(q) && Eq(p, q) && p.Iface?
    ensures q.Iface? && q.t == p.t && p.t.IfaceT? && p.elem.Ptr? && !Cut(p.elem.t)
    ensures WellTyped(p.elem) && WellTyped(q.elem) && Eq(p.elem, q.elem)
  {
  }

  lemma {:induction false} SameDotsExpr(p: Value, q: Value)
    requires WellTyped(p) && WellTyped(q) && Eq(p, q)
    ensures DotsExpr(p).Some? <==> DotsExpr(q).Some?
  {
    if p.Iface? {
      IfaceElem(p, q);
      PtrFields(p.elem, q.elem);
    }
  }

  /** Equal patterns have their special shapes in the same places. */
  lemma {:induction false} SameDotsItem(p: Value, q: Value)
    requires WellTyped(p) && WellTyped(q) && Eq(p, q)
    ensures DotsItem(p).Some? <==> DotsItem(q).Some?
  {
    SameDotsExpr(p, q);
    if p.Ptr? && !Cut(p.t) {
      PtrFields(p, q);
      hide WellTyped, DotsExpr, Eq;
      if |p.elem.fields| == 5 { SameDotsExpr(p.elem.fields[2], q.elem.fields[2]); }
    } else if p.Iface? {
      IfaceElem(p, q);
      PtrFields(p.elem, q.elem);
      hide WellTyped, DotsExpr, Eq;
      if |p.elem.elem.fields| == 1 { SameDotsExpr(p.elem.elem.fields[0], q.elem.elem.fields[0]); }
    }
  }

  lemma {:induction false} SamePtr(p: Value, q: Value)
    requires WellTyped(p) && WellTyped(q) && Eq(p, q) && p.Ptr? && !Cut(p.t)
    ensures ForDots(p).Some? <==> ForDots(q).Some?
    ensures IdentName(p) == IdentName(q)
  {
    PtrFields(p, q);
    if |p.elem.fields| == 5 { SameDotsExpr(p.elem.fields[2], q.elem.fields[2]); }
  }

  // ----------------------------------------------------------- lists, cut at their `...`s

  /** The index of the first `...` of a list, or its length. */
  function FirstDots(items: seq<Value>): (k: nat)
    ensures k <= |items|
    ensures k < |items| ==> DotsItem(items[k]).Some?
    ensures forall i | 0 <= i < k :: DotsItem(items[i]).None?
  {
    if items == [] || DotsItem(items[0]).Some? then 0 else 1 + FirstDots(items[1..])
  }

  lemma {:induction false} WithoutFirst(items: seq<Value>, k: nat)
    requires 0 < k <= |items|
    ensures items[1..][..k - 1] == items[..k][1..]
    ensures k < |items| ==> items[1..][k..] == items[k + 1..] && items[1..][k - 1] == items[k]
  {
  }

  lemma {:induction false} CompileFirst(meta: Meta, items: seq<Value>)
    requires items != []
    ensures CompileAllM(meta, items) == [CompileM(meta, items[0])] + CompileAllM(meta, items[1..])
    ensures CompileAllR(meta, items) == [CompileR(meta, items[0])] + CompileAllR(meta, items[1..])
  {
  }

  lemma {:induction false} CutSectionsM(meta: Meta, items: seq<Value>)
    ensures var k := FirstDots(items);
      SectionsM(meta, items) ==
        [Section(CompileAllM(meta, items[..k]))] + if k < |items| then SectionsM(meta, items[k + 1..]) else []
    decreases |items|
  {
    hide CompileM, CompileAllM, DotsItem, DotsIn;
    var k := FirstDots(items);
    if 0 < k {
      var rest := SectionsM(meta, items[1..]);
      assert k == 1 + FirstDots(items[1..]);
      assert SectionsM(meta, items) == [Section([CompileM(meta, items[0])] + rest[0].items)] + rest[1..];
      CutSectionsM(meta, items[1..]);
      hide SectionsM, FirstDots;
      WithoutFirst(items, k);
      CompileFirst(meta, items[..k]);
    } else {
      assert CompileAllM(meta, items[..0]) == [];
    }
  }

  lemma {:induction false} CutSectionsR(meta: Meta, items: seq<Value>)
    ensures var k := FirstDots(items);
      SectionsR(meta, items) ==
        [Section(CompileAllR(meta, items[..k]))] + if k < |items| then SectionsR(meta, items[k + 1..]) else []
    decreases |items|
  {
    hide CompileR, CompileAllR, DotsItem, DotsIn;
    var k := FirstDots(items);
    if 0 < k {
      var rest := SectionsR(meta, items[1..]);
      assert k == 1 + FirstDots(items[1..]);
      assert SectionsR(meta, items) == [Section([CompileR(meta, items[0])] + rest[0].items)] + rest[1..];
      CutSectionsR(meta, items[1..]);
      hide SectionsR, FirstDots;
      WithoutFirst(items, k);
      CompileFirst(meta, items[..k]);
    } else {
      assert CompileAllR(meta, items[..0]) == [];
    }
  }

  lemma {:induction false} CutDotsIn(items: seq<Value>)
    ensures var k := FirstDots(items);
      DotsIn(items) == if k < |items| then [DotsItem(items[k]).value] + DotsIn(items[k + 1..]) else []
    decreases |items|
  {
    hide DotsItem;
    var k := FirstDots(items);
    if 0 < k {
      CutDotsIn(items[1..]);
      WithoutFirst(items, k);
    }
  }

  lemma {:induction false} FirstIsNoDots(items: seq<Value>)
    requires items != []
    ensures DotsOfAll(false, items) == DotsOf(items[0]) + DotsOfAll(false, items[1..])
  {
  }

  lemma {:induction false} CutDotsOf(items: seq<Value>)
    ensures var k := FirstDots(items);
      DotsOfAll(true, items) == DotsOfAll(false, items[..k])
        + if k < |items| then [DotsItem(items[k]).value] + DotsOfAll(true, items[k + 1..]) else []
    decreases |items|
  {
    hide DotsItem, DotsOf;
    var k := FirstDots(items);
    if 0 < k {
      assert k == 1 + FirstDots(items[1..]);
      assert DotsOfAll(true, items) == DotsOf(items[0]) + DotsOfAll(true, items[1..]);
      CutDotsOf(items[1..]);
      WithoutFirst(items, k);
      FirstIsNoDots(items[..k]);
      hide DotsOfAll, FirstDots;
    } else {
      assert DotsOfAll(false, items[..0]) == [];
    }
  }

  lemma {:induction false} CutDots(items: seq<Value>)
    ensures var k := FirstDots(items);
      && DotsIn(items) == (if k < |items| then [DotsItem(items[k]).value] + DotsIn(items[k + 1..]) else [])
      && DotsOfAll(true, items) == DotsOfAll(false, items[..k])
         + if k < |items| then [DotsItem(items[k]).value] + DotsOfAll(true, items[k + 1..]) else []
  {
    hide DotsItem, DotsIn, DotsOfAll, FirstDots;
    CutDotsIn(items);
    CutDotsOf(items);
  }

  lemma {:induction false} SameFirstDots(ps: seq<Value>, qs: seq<Value>)
    requires SameAll(ps, qs)
    ensures FirstDots(ps) == FirstDots(qs)
    decreases |ps|
  {
    if ps != [] {
      SameDotsItem(ps[0], qs[0]);
      if DotsItem(ps[0]).None? {
        SameFirstDots(ps[1..], qs[1..]);
      }
    }
  }

  /** The parts of equal trees are equal. */
  lemma {:induction false} SameParts(p: Value, q: Value)
    requires Same(p, q) && !Cut(TypeOf(p))
    ensures p.Ptr? ==> q.Ptr? && q.t == p.t && Same(p.elem, q.elem)
    ensures p.Iface? ==> q.Iface? && q.t == p.t && p.t.IfaceT? && p.elem.Ptr? && !Cut(p.elem.t) && Same(p.elem, q.elem)
    ensures p.Slice? ==> (q.Slice? || q.Nil?) && q.t == p.t && p.t.SliceT? && SameAll(p.items, Items(q))
    ensures p.Struct? ==> q.Struct? && q.t == p.t && p.t.StructT? && SameAll(p.fields, q.fields)
  {
    match p
    case Ptr(_, e) => assert WellTyped(e) && WellTyped(q.elem) && Eq(e, q.elem);
    case Iface(_, e) => assert WellTyped(e) && WellTyped(q.elem) && Eq(e, q.elem);
    case Slice(t, items) =>
      assert EqAll(items, Items(q));
      forall i | 0 <= i < |items| ensures Same(items[i], Items(q)[i]) {
        assert WellTyped(items[i]) && WellTyped(Items(q)[i]) && Eq(items[i], Items(q)[i]);
      }
    case Struct(t, fields) =>
      assert EqAll(fields, q.fields);
      forall i | 0 <= i < |fields| ensures Same(fields[i], q.fields[i]) {
        assert WellTyped(fields[i]) && WellTyped(q.fields[i]) && Eq(fields[i], q.fields[i]);
      }
    case _ =>
  }

  /** Equal patterns have equally many `...`s. */
  lemma {:induction false} SameDotsCount(p: Value, q: Value)
    requires Same(p, q)
    ensures |DotsOf(p)| == |DotsOf(q)|
    decreases p, 1
  {
    if !Cut(TypeOf(p)) {
      SameParts(p, q);
      match p
      case Ptr(_, e) =>
        PtrFields(p, q);
        SamePtr(p, q);
        if ForDots(p).Some? {
          SameDotsCount(e.fields[4], q.elem.fields[4]);
        } else {
          SameDotsCount(e, q.elem);
        }
      case Iface(_, e) => SameDotsCount(e, q.elem);
      case Slice(t, items) => SameDotsCountAll(Elidable(t), items, Items(q));
      case Struct(_, fields) => SameDotsCountAll(false, fields, q.fields);
      case _ =>
    }
  }

  lemma {:induction false} SameDotsCountAll(elidable: bool, ps: seq<Value>, qs: seq<Value>)
    requires SameAll(ps, qs)
    ensures |DotsOfAll(elidable, ps)| == |DotsOfAll(elidable, qs)|
    decreases ps, 0
  {
    hide WellTyped, Eq, DotsItem;
    if ps != [] {
      SameDotsCount(ps[0], qs[0]);
      SameDotsItem(ps[0], qs[0]);
      SameDotsCountAll(elidable, ps[1..], qs[1..]);
    }
  }

  // ------------------------------------------------------------------ the main result

  /** What the replacer of the plus side needs of the final environment, given the match of the minus side. */
  ghost predicate Ready(assoc: Assoc, minus: seq<Pos>, plus: seq<Pos>, d1: Env, d2: Env) {
    Linked(assoc, minus, plus) && Distinct(minus) && Survives(d1, d2, SetOf(minus))
  }

  /** The replacer succeeds and gives v back. */
  ghost predicate Restores(r: Option<Value>, v: Value) {
    r.Some? && Same(r.value, v)
  }

  ghost predicate RestoresAll(r: Option<seq<Value>>, vs: seq<Value>) {
    r.Some? && SameAll(r.value, vs)
  }

  lemma {:induction false} ReadyForNothing(assoc: Assoc, minus: seq<Pos>, plus: seq<Pos>, d1: Env, d2: Env)
    requires Ready(assoc, minus, plus, d1, d2)
    ensures Survives(d1, d2, {})
  {
  }

  lemma {:induction false} LeafRestored(meta: Meta, p: Value, q: Value, v: Value, d: Env, d2: Env, assoc: Assoc, pos: Pos)
    requires Same(p, q) && WellTyped(v) && Facing(p, v) && Unify.IsLeaf(p)
    requires pos.IsValid() && Match(CompileM(meta, p), v, d).Some?
    ensures Restores(Replace(CompileR(meta, q), d2, assoc, pos), v)
  {
  }

  lemma {:induction false} CapturedType(p: Value, u: Value, v: Value, d: Env, x: string)
    requires IdentName(p).Some? && Facing(p, v) && NilsAreNames(d) && Bound(d, x) == Some(u) && Eq(u, v)
    requires IsExpression(TypeOf(u)) && IsExpression(TypeOf(v))
    ensures p.t == IDENT_PTR && TypeOf(u) == TypeOf(v)
  {
  }

  lemma {:induction false} VariableMatched(meta: Meta, p: Value, v: Value, d: Env)
    requires Unify.IsVariable(meta, p) && Sane(d) && Plain(v) && Match(CompileM(meta, p), v, d).Some?
    ensures var (x, d1) := (IdentName(p).value, Match(CompileM(meta, p), v, d).value);
      if Bound(d, x).Some? then
        && Bound(d1, x) == Bound(d, x) && Match(CompileM(map[], Bound(d, x).value), v, New).Some?
        && Plain(Bound(d, x).value) && IsExpression(TypeOf(Bound(d, x).value)) && IsExpression(TypeOf(v))
      else Bound(d1, x) == Some(v)
  {
    hide WellTyped, DotsFree, Eq;
  }

  lemma {:induction false} VariableReplaced(meta: Meta, q: Value, u: Value, d: Env, assoc: Assoc, pos: Pos)
    requires Unify.IsVariable(meta, q) && q.Ptr? && Bound(d, IdentName(q).value) == Some(u)
    ensures Replace(CompileR(meta, q), d, assoc, pos) == Replace(CompileR(map[], u), New, map[], pos)
  {
    ClosedWithoutMetaR(u);
  }

  lemma {:induction false} VariableRestored(meta: Meta, p: Value, q: Value, v: Value, d: Env, d2: Env, assoc: Assoc, pos: Pos)
    requires Unify.IsVariable(meta, p) && IdentName(q) == IdentName(p) && q.Ptr? && Plain(v) && Facing(p, v)
    requires Sane(d) && pos.IsValid() && Match(CompileM(meta, p), v, d).Some?
    requires Survives(Match(CompileM(meta, p), v, d).value, d2, {})
    ensures Restores(Replace(CompileR(meta, q), d2, assoc, pos), v)
  {
    hide WellTyped, DotsFree, Eq, Match, CompileM, Replace, CompileR, Bound;
    var x := IdentName(p).value;
    VariableMatched(meta, p, v, d);
    var u := Bound(Match(CompileM(meta, p), v, d).value, x).value;
    if Bound(d, x).Some? {
      Unify.CapturedAgain(u, v);
      assert p.t == IDENT_PTR && TypeOf(u) == TypeOf(v) by { CapturedType(p, u, v, d, x); }
    } else {
      EqRefl(v);
    }
    CaptureIsReproduced(u, pos);
    VariableReplaced(meta, q, u, d2, assoc, pos);
    EqTrans(Replace(CompileR(map[], u), New, map[], pos).value, u, v);
  }

  lemma {:induction false} SameSides(meta: Meta, p: Value, q: Value, v: Value, d: Env, d2: Env, assoc: Assoc, pos: Pos)
    requires Same(p, q) && Plain(v) && Facing(p, v)
    requires Sane(d) && pos.IsValid()
    requires Match(CompileM(meta, p), v, d).Some?
    requires Ready(assoc, DotsOf(p), DotsOf(q), Match(CompileM(meta, p), v, d).value, d2)
    ensures Restores(Replace(CompileR(meta, q), d2, assoc, pos), v)
    decreases p, 3
  {
    hide Match, CompileM, Replace, CompileR, WellTyped, DotsFree, Eq, DotsOf, Ready, IdentName, ForDots;
    if Unify.IsLeaf(p) {
      LeafRestored(meta, p, q, v, d, d2, assoc, pos);
    } else {
      match p
      case Ptr(_, _) =>
        SamePtr(p, q);
        SameParts(p, q);
        if Unify.IsVariable(meta, p) {
          ReadyForNothing(assoc, DotsOf(p), DotsOf(q), Match(CompileM(meta, p), v, d).value, d2);
          VariableRestored(meta, p, q, v, d, d2, assoc, pos);
        } else if ForDots(p).Some? {
          LoopRestored(meta, p, q, v, d, d2, assoc, pos);
        } else {
          PointerRestored(meta, p, q, v, d, d2, assoc, pos);
        }
      case Iface(_, _) => IfaceRestored(meta, p, q, v, d, d2, assoc, pos);
      case Slice(_, _) => ListRestored(meta, p, q, v, d, d2, assoc, pos);
      case Struct(_, _) => StructRestored(meta, p, q, v, d, d2, assoc, pos);
    }
  }

  lemma {:induction false} IfaceOf(v: Value)
    requires WellTyped(v) && v.Iface?
    ensures v.t.IfaceT? && v.elem.Ptr? && !Cut(v.elem.t)
  {
  }

  lemma {:induction false} IfaceRestored(meta: Meta, p: Value, q: Value, v: Value, d: Env, d2: Env, assoc: Assoc, pos: Pos)
    requires Same(p, q) && Plain(v) && Facing(p, v) && p.Iface?
    requires Sane(d) && pos.IsValid()
    requires Match(CompileM(meta, p), v, d).Some?
    requires Ready(assoc, DotsOf(p), DotsOf(q), Match(CompileM(meta, p), v, d).value, d2)
    ensures Restores(Replace(CompileR(meta, q), d2, assoc, pos), v)
    decreases p, 2
  {
    hide Match, CompileM, WellTyped, DotsFree, Eq;
    PlainParts(v);
    IfaceOf(p);
    SameParts(p, q);
    Unify.MatchIface(meta, p, v, d);
    IfaceOf(v);
    SameSides(meta, p.elem, q.elem, v.elem, d, d2, assoc, pos);
    SameIfaceOf(Replace(CompileR(meta, q.elem), d2, assoc, pos).value, v);
  }

  lemma {:induction false} PointerRestored(meta: Meta, p: Value, q: Value, v: Value, d: Env, d2: Env, assoc: Assoc, pos: Pos)
    requires Same(p, q) && Plain(v) && Facing(p, v)
    requires p.Ptr? && !Cut(p.t) && !Unify.IsVariable(meta, p) && ForDots(p).None?
    requires Sane(d) && pos.IsValid()
    requires Match(CompileM(meta, p), v, d).Some?
    requires Ready(assoc, DotsOf(p), DotsOf(q), Match(CompileM(meta, p), v, d).value, d2)
    ensures Restores(Replace(CompileR(meta, q), d2, assoc, pos), v)
    decreases p, 2
  {
    hide Match, CompileM, WellTyped, DotsFree, Eq;
    PlainParts(v);
    SamePlaceOfTypes(p, v);
    Unify.PartsInPlace(p, v);
    Unify.MatchPtr(meta, p, v, d);
    SamePtr(p, q);
    SameParts(p, q);
    SameSides(meta, p.elem, q.elem, v.elem, d, d2, assoc, pos);
    SamePtrOf(Replace(CompileR(meta, q.elem), d2, assoc, pos).value, v);
  }

  /** Matching an item keeps the environment sane. */
  lemma {:induction false} ItemKeepsSane(meta: Meta, p: Value, v: Value, d: Env)
    requires WellTyped(p) && Plain(v) && TypeOf(p) == TypeOf(v) && Sane(d) && Match(CompileM(meta, p), v, d).Some?
    ensures Sane(Match(CompileM(meta, p), v, d).value)
  {
    hide Match, CompileM, WellTyped, DotsFree, NilsAreNames, PlainEnv;
    MatchCapturesPlain(CompileM(meta, p), v, d);
    CompiledIsGuarded(meta, p);
    MatchKeepsNils(CompileM(meta, p), TypeOf(p), v, d);
  }

  lemma {:induction false} PrefixKeepsSane(meta: Meta, ps: seq<Value>, got: seq<Value>, d: Env, idx: nat)
    requires WellTypedAll(ps) && PlainAll(got) && FacingFrom(ps, got, idx) && Sane(d)
    requires MatchPrefix(CompileAllM(meta, ps), got, d, idx).Some?
    ensures Sane(MatchPrefix(CompileAllM(meta, ps), got, d, idx).value)
  {
    hide MatchPrefix, CompileM, WellTyped, DotsFree, NilsAreNames, PlainEnv, Guarded;
    PrefixCapturesPlain(CompileAllM(meta, ps), got, d, idx);
    var ts := seq(|ps|, i requires 0 <= i < |ps| => TypeOf(ps[i]));
    forall i | 0 <= i < |ps| ensures Guarded(CompileM(meta, ps[i]), ts[i]) { CompiledIsGuarded(meta, ps[i]); }
    PrefixKeepsNils(CompileAllM(meta, ps), ts, got, d, idx);
  }

  lemma {:induction false} RunKeepsSane(d: Env, dots: Pos, run: seq<Value>)
    requires Sane(d)
    ensures Sane(With(d, DotsKey(dots), Skipped(run)))
  {
    SkippingIsPlain(d, dots, run);
    NilsWith(d, DotsKey(dots), Skipped(run));
  }

  lemma {:induction false} FirstRestored(rs: seq<Replacer>, d: Env, assoc: Assoc, pos: Pos, vs: seq<Value>, idx: nat, end: nat)
    requires rs != [] && idx < end <= |vs|
    requires Restores(Replace(rs[0], d, assoc, pos), vs[idx])
    requires RestoresAll(ReplaceAll(rs[1..], d, assoc, pos), vs[idx + 1..end])
    ensures RestoresAll(ReplaceAll(rs, d, assoc, pos), vs[idx..end])
  {
    hide Replace, Eq;
    assert vs[idx..end] == [vs[idx]] + vs[idx + 1..end];
  }

  lemma {:induction false} HeadReady(meta: Meta, ps: seq<Value>, qs: seq<Value>, vs: seq<Value>, idx: nat, d: Env, d2: Env, assoc: Assoc)
    requires SameAll(ps, qs) && ps != [] && idx + |ps| <= |vs|
    requires MatchPrefix(CompileAllM(meta, ps), vs, d, idx).Some?
    requires Ready(assoc, DotsOfAll(false, ps), DotsOfAll(false, qs), MatchPrefix(CompileAllM(meta, ps), vs, d, idx).value, d2)
    ensures Match(CompileM(meta, ps[0]), vs[idx], d).Some?
    ensures MatchPrefix(CompileAllM(meta, ps), vs, d, idx) ==
      MatchPrefix(CompileAllM(meta, ps[1..]), vs, Match(CompileM(meta, ps[0]), vs[idx], d).value, idx + 1)
    ensures Ready(assoc, DotsOf(ps[0]), DotsOf(qs[0]), Match(CompileM(meta, ps[0]), vs[idx], d).value, d2)
    ensures Ready(assoc, DotsOfAll(false, ps[1..]), DotsOfAll(false, qs[1..]),
                  MatchPrefix(CompileAllM(meta, ps), vs, d, idx).value, d2)
  {
    hide Match, CompileM, WellTyped, Eq, DotsOf;
    var ms := CompileAllM(meta, ps);
    assert ms[1..] == CompileAllM(meta, ps[1..]);
    var d1 := Match(ms[0], vs[idx], d).value;
    SameDotsCount(ps[0], qs[0]);
    SplitLinked(assoc, DotsOf(ps[0]), DotsOfAll(false, ps[1..]), DotsOf(qs[0]), DotsOfAll(false, qs[1..]));
    SplitDistinct(DotsOf(ps[0]), DotsOfAll(false, ps[1..]));
    PrefixKept(ms[1..], vs, d1, idx + 1);
    forall a | a in DotsAllM(ms[1..]) ensures a in SetOf(DotsOfAll(false, ps[1..])) { CompiledDotsAll(meta, ps[1..], a); }
    SurvivesEarlier(d1, MatchPrefix(ms[1..], vs, d1, idx + 1).value, d2, DotsAllM(ms[1..]), SetOf(DotsOf(ps[0])),
                    SetOf(DotsOfAll(false, ps)));
  }

  /** Items matched in place are restored one by one. */
  lemma {:induction false} ItemsRestored(
      meta: Meta, ps: seq<Value>, qs: seq<Value>, vs: seq<Value>, idx: nat, d: Env, d2: Env, assoc: Assoc, pos: Pos)
    requires SameAll(ps, qs) && PlainAll(vs) && FacingFrom(ps, vs, idx)
    requires Sane(d) && pos.IsValid()
    requires MatchPrefix(CompileAllM(meta, ps), vs, d, idx).Some?
    requires Ready(assoc, DotsOfAll(false, ps), DotsOfAll(false, qs), MatchPrefix(CompileAllM(meta, ps), vs, d, idx).value, d2)
    ensures RestoresAll(ReplaceAll(CompileAllR(meta, qs), d2, assoc, pos), vs[idx..idx + |ps|])
    decreases ps, 0
  {
    hide Match, Replace, CompileM, CompileR, WellTyped, DotsFree, Eq, DotsOf, DotsOfAll, Ready, Sane;
    if ps != [] {
      hide MatchPrefix, ReplaceAll, RestoresAll, Restores;
      var ms, rs := CompileAllM(meta, ps), CompileAllR(meta, qs);
      assert rs[1..] == CompileAllR(meta, qs[1..]);
      var d1 := Match(ms[0], vs[idx], d).value;
      HeadReady(meta, ps, qs, vs, idx, d, d2, assoc);
      assert TypeOf(ps[0]) == TypeOf(vs[idx + 0]);
      ItemKeepsSane(meta, ps[0], vs[idx], d);
      SameSides(meta, ps[0], qs[0], vs[idx], d, d2, assoc, pos);
      assert FacingFrom(ps[1..], vs, idx + 1) by {
        assert forall i | 0 <= i < |ps| - 1 :: ps[1..][i] == ps[i + 1];
      }
      ItemsRestored(meta, ps[1..], qs[1..], vs, idx + 1, d1, d2, assoc, pos);
      FirstRestored(rs, d2, assoc, pos, vs, idx, idx + |ps|);
    }
  }

  lemma {:induction false} StructParts(p: Value, q: Value, v: Value)
    requires Same(p, q) && Plain(v) && Facing(p, v) && p.Struct?
    ensures p.t.StructT? && q.Struct? && p.t == q.t && v.Struct? && v.t == p.t && |p.fields| == |v.fields|
    ensures SameAll(p.fields, q.fields) && PlainAll(v.fields)
    ensures FacingFrom(p.fields, v.fields, 0)
    ensures DotsOf(p) == DotsOfAll(false, p.fields) && DotsOf(q) == DotsOfAll(false, q.fields)
  {
    PlainParts(v);
    SameParts(p, q);
  }

  lemma {:induction false} StructRebuilt(meta: Meta, q: Value, v: Value, d: Env, assoc: Assoc, pos: Pos)
    requires q.Struct? && q.t.StructT? && v.Struct? && v.t == q.t && WellTyped(v)
    requires RestoresAll(ReplaceAll(CompileAllR(meta, q.fields), d, assoc, pos), v.fields)
    ensures Restores(Replace(CompileR(meta, q), d, assoc, pos), v)
  {
    hide ReplaceAll, CompileAllR, SameAll, Same, WellTyped, Eq;
    SameStructOf(ReplaceAll(CompileAllR(meta, q.fields), d, assoc, pos).value, v);
  }

  lemma {:induction false} StructRestored(meta: Meta, p: Value, q: Value, v: Value, d: Env, d2: Env, assoc: Assoc, pos: Pos)
    requires Same(p, q) && Plain(v) && Facing(p, v) && p.Struct?
    requires Sane(d) && pos.IsValid()
    requires Match(CompileM(meta, p), v, d).Some?
    requires Ready(assoc, DotsOf(p), DotsOf(q), Match(CompileM(meta, p), v, d).value, d2)
    ensures Restores(Replace(CompileR(meta, q), d2, assoc, pos), v)
    decreases p, 2
  {
    hide Match, MatchPrefix, CompileM, Replace, ReplaceAll, CompileR, WellTyped, DotsFree, Eq, DotsOf, DotsOfAll, Ready;
    hide PlainAll, SameAll, IdentName, Unify.IsVariable;
    StructParts(p, q, v);
    Unify.MatchStruct(meta, p, v, d);
    ItemsRestored(meta, p.fields, q.fields, v.fields, 0, d, d2, assoc, pos);
    assert v.fields[0..|p.fields|] == v.fields;
    StructRebuilt(meta, q, v, d2, assoc, pos);
  }

  /** The body of a loop statement, of either kind. */
  lemma {:induction false} LoopBody(v: Value)
    requires Plain(v) && v.Ptr? && BodyIndex(v.elem.t).Some? && v.elem.Struct?
    ensures var idx := BodyIndex(v.elem.t).value;
      && v.elem.t.StructT? && |v.elem.fields| == |v.elem.t.layout| && idx < |v.elem.fields|
      && PlainAll(v.elem.fields) && TypeOf(v.elem.fields[idx]) == PtrT(BLOCK_STMT)
  {
    PlainParts(v);
    PlainParts(v.elem);
  }

  /** Replacing one field by an equal one leaves a statement equal. */
  lemma {:induction false} OneFieldChanged(v: Value, idx: nat, body: Value)
    requires WellTyped(v) && v.Ptr? && v.elem.Struct? && idx < |v.elem.fields| && Same(body, v.elem.fields[idx])
    ensures Same(Ptr(v.t, Struct(v.elem.t, v.elem.fields[idx := body])), v)
  {
    var fields := v.elem.fields;
    assert WellTyped(v.elem);
    forall i | 0 <= i < |fields| ensures Same(fields[idx := body][i], fields[i]) { SameRefl(fields[i]); }
    assert Same(Struct(v.elem.t, fields[idx := body]), v.elem);
  }

  lemma {:induction false} MatchLoop(meta: Meta, p: Value, v: Value, d: Env)
    requires p.Ptr? && !Cut(p.t) && !Unify.IsVariable(meta, p) && ForDots(p).Some? && Match(CompileM(meta, p), v, d).Some?
    ensures DotsOf(p) == [ForDots(p).value] + DotsOf(p.elem.fields[4])
    ensures v.Ptr? && v.elem.Struct? && v.t == PtrT(v.elem.t) && BodyIndex(v.elem.t).Some?
    ensures var idx := BodyIndex(v.elem.t).value;
      idx < |v.elem.fields| &&
      Match(CompileM(meta, p), v, d) ==
      Match(CompileM(meta, p.elem.fields[4]), v.elem.fields[idx],
            With(d, ForKey(ForDots(p).value), Around(v.elem.t, idx, OthersOf(v.elem.fields, idx))))
  {
  }

  lemma {:induction false} LoopDots(q: Value)
    requires q.Ptr? && !Cut(q.t) && ForDots(q).Some?
    ensures DotsOf(q) == [ForDots(q).value] + DotsOf(q.elem.fields[4])
  {
  }

  lemma {:induction false} ReplaceLoop(meta: Meta, q: Value, d: Env, assoc: Assoc, pos: Pos, around: Entry)
    requires q.Ptr? && !Cut(q.t) && !Unify.IsVariable(meta, q) && ForDots(q).Some?
    requires around.Around? && d.Value(ForKey(Partner(assoc, ForDots(q).value))) == Some(around)
    requires Replace(CompileR(meta, q.elem.fields[4]), d, assoc, pos).Some?
    ensures Replace(CompileR(meta, q), d, assoc, pos) ==
      Rebuild(around, Replace(CompileR(meta, q.elem.fields[4]), d, assoc, pos).value)
  {
  }

  /** A `for ...` gives the loop it has matched back, whichever clauses that had. */
  lemma {:induction false} LoopRestored(meta: Meta, p: Value, q: Value, v: Value, d: Env, d2: Env, assoc: Assoc, pos: Pos)
    requires Same(p, q) && Plain(v)
    requires p.Ptr? && !Cut(p.t) && !Unify.IsVariable(meta, p) && ForDots(p).Some?
    requires Sane(d) && pos.IsValid()
    requires Match(CompileM(meta, p), v, d).Some?
    requires Ready(assoc, DotsOf(p), DotsOf(q), Match(CompileM(meta, p), v, d).value, d2)
    ensures Restores(Replace(CompileR(meta, q), d2, assoc, pos), v)
    decreases p, 2
  {
    hide WellTyped, DotsFree, Eq, Match, CompileM, Replace, CompileR, DotsOf, IdentName;
    SamePtr(p, q);
    PtrFields(p, q);
    MatchLoop(meta, p, v, d);
    LoopBody(v);
    assert DotsOf(q) == [ForDots(q).value] + DotsOf(q.elem.fields[4]) by { LoopDots(q); }
    var dots, body := ForDots(p).value, p.elem.fields[4];
    var t, fields, idx := v.elem.t, v.elem.fields, BodyIndex(v.elem.t).value;
    var d0 := With(d, ForKey(dots), Around(t, idx, OthersOf(fields, idx)));
    assert Sane(d0) by {
      assert forall x :: Bound(d0, x) == Bound(d, x);
      NilsWith(d, ForKey(dots), Around(t, idx, OthersOf(fields, idx)));
    }
    var m := CompileM(meta, body);
    var d1 := Match(m, fields[idx], d0).value;
    SplitLinked(assoc, [dots], DotsOf(body), [ForDots(q).value], DotsOf(q.elem.fields[4]));
    SplitDistinct([dots], DotsOf(body));
    MatchKept(m, fields[idx], d0);
    CompiledDots(meta, body, dots);
    assert dots in SetOf([dots]) && d2.Value(ForKey(dots)) == d0.Value(ForKey(dots));
    SameSides(meta, body, q.elem.fields[4], fields[idx], d0, d2, assoc, pos);
    var body' := Replace(CompileR(meta, q.elem.fields[4]), d2, assoc, pos).value;
    ReplaceLoop(meta, q, d2, assoc, pos, Around(t, idx, OthersOf(fields, idx)));
    AroundRebuilt(t, fields, idx, body');
    OneFieldChanged(v, idx, body');
  }

  // ------------------------------------------------------------- lists with elided items

  lemma {:induction false} SameAllConcat(a: seq<Value>, b: seq<Value>, c: seq<Value>, d: seq<Value>)
    requires SameAll(a, c) && SameAll(b, d)
    ensures SameAll(a + b, c + d)
  {
  }

  lemma {:induction false} SameAllRefl(vs: seq<Value>)
    requires PlainAll(vs)
    ensures SameAll(vs, vs)
  {
    forall i | 0 <= i < |vs| ensures Same(vs[i], vs[i]) { SameRefl(vs[i]); }
  }

  /** A found section was matched in place, after the run before it had been recorded. */
  lemma {:induction false} FoundAt(pos: Pos, want: seq<Matcher>, got: seq<Value>, d: Env, idx: nat, i: nat) returns (start: nat)
    requires idx <= i <= |got| && FindSection(pos, want, got, d, idx, i).Some?
    ensures i <= start <= |got|
    ensures var (end, d1) := FindSection(pos, want, got, d, idx, i).value;
      end == start + |want| && MatchPrefix(want, got, With(d, DotsKey(pos), Skipped(got[idx..start])), start) == Some(d1)
    decreases |got| - i
  {
    if want == [] {
      start := |got|;
      assert got[idx..|got|] == got[idx..];
    } else if MatchPrefix(want, got, With(d, DotsKey(pos), Skipped(got[idx..i])), i).Some? {
      start := i;
    } else {
      start := FoundAt(pos, want, got, d, idx, i + 1);
    }
  }

  /** A run of items without `...`, and what follows it: the run is ready when the whole is. */
  lemma {:induction false} RunReady(
      a: seq<Pos>, b: seq<Pos>, a': seq<Pos>, b': seq<Pos>, d1: Env, d2: Env, d3: Env,
      touched: set<Pos>, assoc: Assoc)
    requires Ready(assoc, a + b, a' + b', d2, d3) && |a| == |a'| && Kept(d1, d2, touched) && touched <= SetOf(b)
    ensures Ready(assoc, a, a', d1, d3) && Ready(assoc, b, b', d2, d3)
  {
    SplitLinked(assoc, a, b, a', b');
    SplitDistinct(a, b);
    SurvivesEarlier(d1, d2, d3, touched, SetOf(a), SetOf(a + b));
  }

  /** One `...` and the section behind it, which takes got[idx..start + |ps|]; b are the `...`s further on. */
  lemma {:induction false} SectionRestored(
      meta: Meta, dots: Pos, dots': Pos, ps: seq<Value>, qs: seq<Value>, got: seq<Value>, idx: nat, start: nat,
      d: Env, d1: Env, end: Env, d2: Env, touched: set<Pos>, b: seq<Pos>, b': seq<Pos>, assoc: Assoc, pos: Pos)
    requires SameAll(ps, qs) && PlainAll(got) && FacingAll(ps, got)
    requires Sane(d) && pos.IsValid() && idx <= start && start + |ps| <= |got|
    requires MatchPrefix(CompileAllM(meta, ps), got, With(d, DotsKey(dots), Skipped(got[idx..start])), start) == Some(d1)
    requires Kept(d1, end, touched) && touched <= SetOf(b)
    requires Ready(assoc, [dots] + (DotsOfAll(false, ps) + b), [dots'] + (DotsOfAll(false, qs) + b'), end, d2)
    ensures ReplaceAll(CompileAllR(meta, qs), d2, assoc, pos).Some?
    ensures SameAll(Run(d2, dots) + ReplaceAll(CompileAllR(meta, qs), d2, assoc, pos).value, got[idx..start + |ps|])
    ensures Ready(assoc, b, b', end, d2) && Sane(d1)
    decreases ps, 1
  {
    hide Match, MatchPrefix, Replace, ReplaceAll, CompileM, CompileR, WellTyped, DotsFree, Eq, DotsOfAll, Sane;
    var a, a' := DotsOfAll(false, ps), DotsOfAll(false, qs);
    var want := CompileAllM(meta, ps);
    var d0 := With(d, DotsKey(dots), Skipped(got[idx..start]));
    RunKeepsSane(d, dots, got[idx..start]);
    assert FacingFrom(ps, got, start);
    PrefixKeepsSane(meta, ps, got, d0, start);
    SameDotsCountAll(false, ps, qs);
    assert [dots] + (a + b) == ([dots] + a) + b && [dots'] + (a' + b') == ([dots'] + a') + b';
    RunReady([dots] + a, b, [dots'] + a', b', d1, end, d2, touched, assoc);
    PrefixKept(want, got, d0, start);
    forall p | p in DotsAllM(want) ensures p in SetOf(a) { CompiledDotsAll(meta, ps, p); }
    RunReady([dots], a, [dots'], a', d0, d1, d2, DotsAllM(want), assoc);
    assert Run(d2, dots) == got[idx..start] by { assert dots in SetOf([dots]); }
    ItemsRestored(meta, ps, qs, got, start, d0, d2, assoc, pos);
    SameAllRefl(got[idx..start]);
    SameAllConcat(got[idx..start], ReplaceAll(CompileAllR(meta, qs), d2, assoc, pos).value, got[idx..start], got[start..start + |ps|]);
    assert got[idx..start] + got[start..start + |ps|] == got[idx..start + |ps|];
  }

  lemma {:induction false} FindSectionsStep(first: seq<Matcher>, rest: seq<Section<Matcher>>, dots: Pos, more: seq<Pos>, got: seq<Value>, d: Env, idx: nat)
    requires |rest| == |more| && idx <= |got|
    ensures FindSections([Section(first)] + rest, [dots] + more, got, d, idx) ==
      match FindSection(dots, first, got, d, idx, idx)
      case None => None
      case Some((idx1, d1)) => FindSections(rest, more, got, d1, idx1)
  {
    assert ([Section(first)] + rest)[1..] == rest && ([dots] + more)[1..] == more;
  }

  lemma {:induction false} ReplaceSectionsStep(
      first: seq<Replacer>, rest: seq<Section<Replacer>>, dots: Pos, more: seq<Pos>, d: Env, assoc: Assoc, pos: Pos,
      vs: seq<Value>, ws: seq<Value>)
    requires ReplaceAll(first, d, assoc, pos) == Some(vs) && ReplaceSections(rest, more, d, assoc, pos) == Some(ws)
    ensures ReplaceSections([Section(first)] + rest, [dots] + more, d, assoc, pos) ==
      Some(vs + (Run(d, Partner(assoc, dots)) + ws))
  {
    hide ReplaceAll, Run;
    assert ([Section(first)] + rest)[1..] == rest && ([dots] + more)[1..] == more;
    assert vs + Run(d, Partner(assoc, dots)) + ws == vs + (Run(d, Partner(assoc, dots)) + ws);
  }

  lemma {:induction false} ReplaceLastSection(first: seq<Replacer>, d: Env, assoc: Assoc, pos: Pos, vs: seq<Value>)
    requires ReplaceAll(first, d, assoc, pos) == Some(vs)
    ensures ReplaceSections([Section(first)], [], d, assoc, pos) == Some(vs)
  {
    assert [Section(first)][1..] == [];
    assert ReplaceSections([], [], d, assoc, pos) == Some([]);
    assert vs + [] + [] == vs;
  }

  lemma {:induction false} NoSections(got: seq<Value>, d: Env, idx: nat)
    requires idx <= |got|
    ensures FindSections([], [], got, d, idx) == Some((idx, d))
  {
  }

  /** What the search behind a `...` skipped and matched is put back: the run as recorded, the sections rebuilt. */
  lemma {:induction false} RestRestored(
      meta: Meta, dots: Pos, dots': Pos, ps: seq<Value>, qs: seq<Value>, got: seq<Value>, idx: nat, d: Env, d2: Env,
      assoc: Assoc, pos: Pos)
    requires SameAll(ps, qs) && PlainAll(got) && FacingAll(ps, got)
    requires Sane(d) && pos.IsValid() && idx <= |got|
    requires var r := FindSections(SectionsM(meta, ps), [dots] + DotsIn(ps), got, d, idx);
      r.Some? && r.value.0 == |got|
      && Ready(assoc, [dots] + DotsOfAll(true, ps), [dots'] + DotsOfAll(true, qs), r.value.1, d2)
    ensures ReplaceSections(SectionsR(meta, qs), DotsIn(qs), d2, assoc, pos).Some?
    ensures SameAll(Run(d2, dots) + ReplaceSections(SectionsR(meta, qs), DotsIn(qs), d2, assoc, pos).value, got[idx..])
    decreases ps, 2
  {
    hide Match, MatchPrefix, FindSection, Replace, ReplaceAll, CompileM, CompileR, WellTyped, DotsFree, Eq, DotsOf, DotsItem;
    hide FindSections, ReplaceSections, SectionsM, SectionsR, DotsIn, DotsOfAll, Run, Ready, FirstDots;
    var k := FirstDots(ps);
    SameFirstDots(ps, qs);
    CutSectionsM(meta, ps);
    CutDots(ps);
    var want := CompileAllM(meta, ps[..k]);
    var end := FindSections(SectionsM(meta, ps), [dots] + DotsIn(ps), got, d, idx).value.1;
    if k == |ps| {
      FindSectionsStep(want, [], dots, [], got, d, idx);
      assert [Section(want)] + [] == [Section(want)] && [dots] + [] == [dots];
    } else {
      FindSectionsStep(want, SectionsM(meta, ps[k + 1..]), dots, [DotsItem(ps[k]).value] + DotsIn(ps[k + 1..]), got, d, idx);
    }
    var start := FoundAt(dots, want, got, d, idx, idx);
    var (idx1, d1) := FindSection(dots, want, got, d, idx, idx).value;
    if k == |ps| {
      assert FindSections([], [], got, d1, idx1) == Some((idx1, d1)) by { NoSections(got, d1, idx1); }
      assert ps[..k] == ps && qs[..k] == qs;
      RestEnds(meta, dots, dots', ps, qs, got, idx, start, d, end, d2, assoc, pos);
    } else {
      RestGoesOn(meta, dots, dots', ps, qs, got, idx, start, d, d1, end, d2, k, assoc, pos);
    }
  }

  /** What the items of two lists have in common, their parts have too. */
  lemma {:induction false} PartsOfLists(ps: seq<Value>, qs: seq<Value>, got: seq<Value>, k: nat)
    requires SameAll(ps, qs) && FacingAll(ps, got) && k < |ps|
    ensures |ps| == |qs| && SameAll(ps[..k], qs[..k]) && FacingAll(ps[..k], got)
    ensures SameAll(ps[k + 1..], qs[k + 1..])
    ensures FacingAll(ps[k + 1..], got)
  {
    hide WellTyped, Eq;
  }

  lemma {:induction false} Stitch(run: seq<Value>, vs: seq<Value>, run': seq<Value>, ws: seq<Value>, got: seq<Value>, idx: nat, idx1: nat)
    requires idx <= idx1 <= |got| && SameAll(run + vs, got[idx..idx1]) && SameAll(run' + ws, got[idx1..])
    ensures SameAll(run + (vs + (run' + ws)), got[idx..])
  {
    hide Eq;
    SameAllConcat(run + vs, run' + ws, got[idx..idx1], got[idx1..]);
    assert (run + vs) + (run' + ws) == run + (vs + (run' + ws));
    assert got[idx..idx1] + got[idx1..] == got[idx..];
  }

  /** Runs are recorded for the `...`s of a list only. */
  lemma {:induction false} DotsInside(meta: Meta, next: Pos, rest: seq<Value>)
    ensures DotsSecsM(SectionsM(meta, rest)) + SetOf([next] + DotsIn(rest)) <= SetOf([next] + DotsOfAll(true, rest))
  {
    hide DotsSecsM, SectionsM, DotsIn, DotsOfAll;
    forall p | p in DotsSecsM(SectionsM(meta, rest)) + SetOf([next] + DotsIn(rest))
      ensures p in SetOf([next] + DotsOfAll(true, rest))
    {
      CompiledDotsSections(meta, rest, p);
    }
  }

  lemma {:induction false} FirstLinked(assoc: Assoc, minus: Pos, plus: Pos, minuses: seq<Pos>, pluses: seq<Pos>, d1: Env, d2: Env)
    requires Ready(assoc, [minus] + minuses, [plus] + pluses, d1, d2)
    ensures Partner(assoc, plus) == minus
  {
    assert ([plus] + pluses)[0] == plus;
  }

  lemma {:induction false} NothingKept(d: Env)
    ensures Kept(d, d, {})
  {
  }

  lemma {:induction false} NoDotsInList(meta: Meta, items: seq<Value>)
    requires FirstDots(items) == |items|
    ensures SectionsM(meta, items) == [Section(CompileAllM(meta, items))] && DotsIn(items) == []
    ensures SectionsR(meta, items) == [Section(CompileAllR(meta, items))]
    ensures DotsOfAll(true, items) == DotsOfAll(false, items)
  {
    CutSectionsM(meta, items);
    CutSectionsR(meta, items);
    CutDots(items);
    assert items[..|items|] == items;
  }

  /** The case in which no other `...` follows. */
  lemma {:induction false} RestEnds(
      meta: Meta, dots: Pos, dots': Pos, ps: seq<Value>, qs: seq<Value>, got: seq<Value>, idx: nat, start: nat, d: Env,
      end: Env, d2: Env, assoc: Assoc, pos: Pos)
    requires SameAll(ps, qs) && PlainAll(got) && FacingAll(ps, got)
    requires Sane(d) && pos.IsValid() && idx <= start && start + |ps| == |got|
    requires FirstDots(ps) == |ps| && FirstDots(qs) == |qs|
    requires MatchPrefix(CompileAllM(meta, ps), got, With(d, DotsKey(dots), Skipped(got[idx..start])), start) == Some(end)
    requires Ready(assoc, [dots] + DotsOfAll(true, ps), [dots'] + DotsOfAll(true, qs), end, d2)
    ensures ReplaceSections(SectionsR(meta, qs), DotsIn(qs), d2, assoc, pos).Some?
    ensures SameAll(Run(d2, dots) + ReplaceSections(SectionsR(meta, qs), DotsIn(qs), d2, assoc, pos).value, got[idx..])
    decreases ps, 2, 0
  {
    hide Match, MatchPrefix, Replace, ReplaceAll, CompileM, CompileR, WellTyped, DotsFree, Eq, DotsOf, DotsItem;
    hide ReplaceSections, SectionsM, SectionsR, DotsIn, DotsOfAll, Run, Ready, SameAll, FacingAll, PlainAll, FirstDots;
    NoDotsInList(meta, ps);
    NoDotsInList(meta, qs);
    assert DotsOfAll(true, ps) == DotsOfAll(false, ps) + [] && DotsOfAll(true, qs) == DotsOfAll(false, qs) + [];
    NothingKept(end);
    SectionRestored(meta, dots, dots', ps, qs, got, idx, start, d, end, end, d2, {}, [], [], assoc, pos);
    ReplaceLastSection(CompileAllR(meta, qs), d2, assoc, pos, ReplaceAll(CompileAllR(meta, qs), d2, assoc, pos).value);
    assert got[idx..|got|] == got[idx..];
  }

  /** The case in which another `...` follows, at index k. */
  lemma {:induction false} RestGoesOn(
      meta: Meta, dots: Pos, dots': Pos, ps: seq<Value>, qs: seq<Value>, got: seq<Value>, idx: nat, start: nat, d: Env,
      d1: Env, end: Env, d2: Env, k: nat, assoc: Assoc, pos: Pos)
    requires SameAll(ps, qs) && PlainAll(got) && FacingAll(ps, got)
    requires Sane(d) && pos.IsValid() && idx <= start && start + k <= |got|
    requires k == FirstDots(ps) == FirstDots(qs) < |ps|
    requires MatchPrefix(CompileAllM(meta, ps[..k]), got, With(d, DotsKey(dots), Skipped(got[idx..start])), start) == Some(d1)
    requires FindSections(SectionsM(meta, ps[k + 1..]), [DotsItem(ps[k]).value] + DotsIn(ps[k + 1..]), got, d1, start + k)
             == Some((|got|, end))
    requires Ready(assoc, [dots] + DotsOfAll(true, ps), [dots'] + DotsOfAll(true, qs), end, d2)
    ensures ReplaceSections(SectionsR(meta, qs), DotsIn(qs), d2, assoc, pos).Some?
    ensures SameAll(Run(d2, dots) + ReplaceSections(SectionsR(meta, qs), DotsIn(qs), d2, assoc, pos).value, got[idx..])
    decreases ps, 1
  {
    hide Match, MatchPrefix, FindSection, Replace, ReplaceAll, CompileM, CompileR, WellTyped, DotsFree, Eq, DotsOf, DotsItem;
    hide FindSections, ReplaceSections, SectionsM, SectionsR, DotsIn, DotsOfAll, Run;
    hide Ready, SameAll, FacingAll, PlainAll, Kept, SetOf, DotsSecsM, FirstDots;
    CutSectionsR(meta, qs);
    CutDots(ps);
    CutDots(qs);
    PartsOfLists(ps, qs, got, k);
    var idx1, next, next' := start + k, DotsItem(ps[k]).value, DotsItem(qs[k]).value;
    var rest, rest' := ps[k + 1..], qs[k + 1..];
    var b, b' := [next] + DotsOfAll(true, rest), [next'] + DotsOfAll(true, rest');
    SectionsKept(SectionsM(meta, rest), [next] + DotsIn(rest), got, d1, idx1);
    var touched := DotsSecsM(SectionsM(meta, rest)) + SetOf([next] + DotsIn(rest));
    assert touched <= SetOf(b) by { DotsInside(meta, next, rest); }
    SectionRestored(meta, dots, dots', ps[..k], qs[..k], got, idx, start, d, d1, end, d2, touched, b, b', assoc, pos);
    RestRestored(meta, next, next', rest, rest', got, idx1, d1, d2, assoc, pos);
    var vs := ReplaceAll(CompileAllR(meta, qs[..k]), d2, assoc, pos).value;
    var ws := ReplaceSections(SectionsR(meta, rest'), DotsIn(rest'), d2, assoc, pos).value;
    FirstLinked(assoc, next, next', DotsOfAll(true, rest), DotsOfAll(true, rest'), end, d2);
    ReplaceSectionsStep(CompileAllR(meta, qs[..k]), SectionsR(meta, rest'), next', DotsIn(rest'), d2, assoc, pos, vs, ws);
    Stitch(Run(d2, dots), vs, Run(d2, next), ws, got, idx, idx1);
  }

  /** A nil list counts as an empty one. */
  lemma {:induction false} NothingFound(sections: seq<Section<Matcher>>, dots: seq<Pos>, d: Env)
    requires |sections| == |dots|
    ensures FindSections(sections, dots, [], d, 0) ==
      if exists i | 0 <= i < |sections| :: sections[i].items != [] then None else Some((0, SkipNothing(dots, d)))
    decreases |sections|
  {
    if sections != [] && sections[0].items == [] {
      NothingFound(sections[1..], dots[1..], With(d, DotsKey(dots[0]), Skipped([])));
      assert forall i | 0 < i < |sections| :: sections[i] == sections[1..][i - 1];
    }
  }

  lemma {:induction false} NothingIsElided(sections: seq<Section<Matcher>>, dots: seq<Pos>, d: Env)
    requires |sections| == |dots| + 1
    ensures MatchNothing(sections, dots, d) == MatchElided(sections, dots, [], d)
  {
    NothingFound(sections[1..], dots, d);
    assert forall i | 0 < i < |sections| :: sections[i] == sections[1..][i - 1];
  }

  lemma {:induction false} TypedPrefix(meta: Meta, ps: seq<Value>, qs: seq<Value>, got: seq<Value>, d: Env)
    requires SameAll(ps, qs) && PlainAll(got) && FacingAll(ps, got) && Sane(d)
    requires MatchPrefix(CompileAllM(meta, ps), got, d, 0).Some?
    ensures Sane(MatchPrefix(CompileAllM(meta, ps), got, d, 0).value)
  {
    hide MatchPrefix, CompileAllM, Plain, Eq, Sane;
    PrefixKeepsSane(meta, ps, got, d, 0);
  }

  lemma {:induction false} StitchFirst(vs: seq<Value>, run: seq<Value>, ws: seq<Value>, got: seq<Value>, k: nat)
    requires k <= |got| && SameAll(vs, got[0..k]) && SameAll(run + ws, got[k..])
    ensures SameAll(vs + (run + ws), got)
  {
    hide Eq;
    SameAllConcat(vs, run + ws, got[0..k], got[k..]);
    assert got[0..k] + got[k..] == got;
  }

  lemma {:induction false} InPlacePrefix(ps: seq<Value>, got: seq<Value>)
    requires FacingAll(ps, got) && |ps| <= |got|
    ensures FacingFrom(ps, got, 0)
  {
  }

  /** A list pattern with at least one `...`. */
  lemma {:induction false} ElidedRestored(
      meta: Meta, ps: seq<Value>, qs: seq<Value>, got: seq<Value>, d: Env, d2: Env, assoc: Assoc, pos: Pos)
    requires SameAll(ps, qs) && PlainAll(got) && FacingAll(ps, got)
    requires Sane(d) && pos.IsValid() && FirstDots(ps) < |ps|
    requires MatchElided(SectionsM(meta, ps), DotsIn(ps), got, d).Some?
    requires Ready(assoc, DotsOfAll(true, ps), DotsOfAll(true, qs), MatchElided(SectionsM(meta, ps), DotsIn(ps), got, d).value, d2)
    ensures RestoresAll(ReplaceSections(SectionsR(meta, qs), DotsIn(qs), d2, assoc, pos), got)
    decreases ps, 1
  {
    hide Match, MatchPrefix, FindSection, Replace, ReplaceAll, CompileM, CompileR, WellTyped, DotsFree, Eq, DotsOf, DotsItem;
    hide FindSections, ReplaceSections, SectionsM, SectionsR, DotsIn, DotsOfAll, Run;
    hide Ready, SameAll, FacingAll, PlainAll, Kept, SetOf, DotsSecsM, FirstDots;
    var k := FirstDots(ps);
    SameFirstDots(ps, qs);
    PartsOfLists(ps, qs, got, k);
    CutSectionsM(meta, ps);
    CutSectionsR(meta, qs);
    CutDots(ps);
    CutDots(qs);
    var next, next', rest, rest' := DotsItem(ps[k]).value, DotsItem(qs[k]).value, ps[k + 1..], qs[k + 1..];
    var a, a' := DotsOfAll(false, ps[..k]), DotsOfAll(false, qs[..k]);
    var b, b' := [next] + DotsOfAll(true, rest), [next'] + DotsOfAll(true, rest');
    var want, more := CompileAllM(meta, ps[..k]), [next] + DotsIn(rest);
    assert SectionsM(meta, ps)[1..] == SectionsM(meta, rest);
    var d1 := MatchPrefix(want, got, d, 0).value;
    var end := FindSections(SectionsM(meta, rest), more, got, d1, k).value.1;
    SectionsKept(SectionsM(meta, rest), more, got, d1, k);
    var touched := DotsSecsM(SectionsM(meta, rest)) + SetOf(more);
    assert touched <= SetOf(b) by { DotsInside(meta, next, rest); }
    SameDotsCountAll(false, ps[..k], qs[..k]);
    RunReady(a, b, a', b', d1, end, d2, touched, assoc);
    InPlacePrefix(ps[..k], got);
    ItemsRestored(meta, ps[..k], qs[..k], got, 0, d, d2, assoc, pos);
    TypedPrefix(meta, ps[..k], qs[..k], got, d);
    RestRestored(meta, next, next', rest, rest', got, k, d1, d2, assoc, pos);
    FirstLinked(assoc, next, next', DotsOfAll(true, rest), DotsOfAll(true, rest'), end, d2);
    var vs := ReplaceAll(CompileAllR(meta, qs[..k]), d2, assoc, pos).value;
    var ws := ReplaceSections(SectionsR(meta, rest'), DotsIn(rest'), d2, assoc, pos).value;
    ReplaceSectionsStep(CompileAllR(meta, qs[..k]), SectionsR(meta, rest'), next', DotsIn(rest'), d2, assoc, pos, vs, ws);
    StitchFirst(vs, Run(d2, next), ws, got, k);
  }

  lemma {:induction false} SliceMatched(ms: seq<Matcher>, v: Value, d: Env)
    requires IsSlice(v) && Match(SliceM(ms), v, d).Some?
    ensures |ms| == |Items(v)| && (v.Slice? ==> Match(SliceM(ms), v, d) == MatchPrefix(ms, v.items, d, 0))
  {
  }

  lemma {:induction false} NothingRestored(rs: seq<Replacer>, d: Env, assoc: Assoc, pos: Pos)
    requires rs == []
    ensures RestoresAll(ReplaceAll(rs, d, assoc, pos), [])
  {
  }

  lemma {:induction false} NothingToReplace(d: Env, assoc: Assoc, pos: Pos)
    ensures ReplaceAll(CompileAllR(map[], []), d, assoc, pos) == Some([])
    ensures forall meta: Meta :: CompileAllR(meta, []) == CompileAllR(map[], [])
  {
  }

  lemma {:induction false} SliceRebuilt(meta: Meta, q: Value, v: Value, d: Env, assoc: Assoc, pos: Pos)
    requires WellTyped(v) && IsSlice(v) && IsSlice(q) && q.t == v.t && q.t.SliceT?
    requires q.Slice? ==> CompileR(meta, q) == SliceR(q.t, CompileAllR(meta, q.items))
    requires RestoresAll(ReplaceAll(CompileAllR(meta, Items(q)), d, assoc, pos), Items(v))
    ensures Restores(Replace(CompileR(meta, q), d, assoc, pos), v)
  {
    hide ReplaceAll, CompileAllR, SameAll, Same, WellTyped, Eq;
    SameSliceOf(ReplaceAll(CompileAllR(meta, Items(q)), d, assoc, pos).value, v);
    if q.Nil? { NothingToReplace(d, assoc, pos); }
  }

  lemma {:induction false} SliceParts(p: Value, q: Value, v: Value)
    requires Same(p, q) && Plain(v) && Facing(p, v) && p.Slice?
    ensures p.t == q.t == TypeOf(v) && p.t.SliceT? && (q.Slice? || q.Nil?) && IsSlice(v) && |p.items| == |Items(q)|
    ensures SameAll(p.items, Items(q)) && PlainAll(Items(v))
    ensures FacingAll(p.items, Items(v))
  {
    PlainParts(v);
    SameParts(p, q);
  }

  /** A list pattern that is matched item by item. */
  lemma {:induction false} SliceRestored(meta: Meta, p: Value, q: Value, v: Value, d: Env, d2: Env, assoc: Assoc, pos: Pos)
    requires Same(p, q) && Plain(v) && Facing(p, v) && p.Slice?
    requires Sane(d) && pos.IsValid()
    requires CompileM(meta, p) == SliceM(CompileAllM(meta, p.items))
    requires q.Slice? ==> CompileR(meta, q) == SliceR(q.t, CompileAllR(meta, q.items))
    requires Match(CompileM(meta, p), v, d).Some?
    requires Ready(assoc, DotsOfAll(false, p.items), DotsOfAll(false, Items(q)), Match(CompileM(meta, p), v, d).value, d2)
    ensures Restores(Replace(CompileR(meta, q), d2, assoc, pos), v)
    decreases p, 1
  {
    hide Match, MatchPrefix, CompileM, Replace, ReplaceAll, CompileR, WellTyped, DotsFree, Eq, DotsOfAll, Ready, SameAll, PlainAll;
    hide Sane, Same, RestoresAll, Restores;
    SliceParts(p, q, v);
    SliceMatched(CompileAllM(meta, p.items), v, d);
    assert RestoresAll(ReplaceAll(CompileAllR(meta, Items(q)), d2, assoc, pos), Items(v)) by {
      if v.Slice? {
        assert FacingFrom(p.items, v.items, 0);
        ItemsRestored(meta, p.items, Items(q), v.items, 0, d, d2, assoc, pos);
        assert v.items[0..|p.items|] == v.items;
      } else {
        NothingRestored(CompileAllR(meta, Items(q)), d2, assoc, pos);
      }
    }
    SliceRebuilt(meta, q, v, d2, assoc, pos);
  }

  lemma {:induction false} ListDots(p: Value)
    requires IsSlice(p) && p.t.SliceT?
    ensures DotsOf(p) == DotsOfAll(Elidable(p.t), Items(p))
  {
  }

  lemma {:induction false} MatchDotsList(meta: Meta, p: Value, v: Value, d: Env)
    requires p.Slice? && Elidable(p.t) && FirstDots(p.items) < |p.items| && Match(CompileM(meta, p), v, d).Some?
    ensures MatchElided(SectionsM(meta, p.items), DotsIn(p.items), Items(v), d) == Match(CompileM(meta, p), v, d)
  {
    hide SectionsM, DotsIn, DotsItem, MatchElided, MatchNothing;
    CutDots(p.items);
    assert CompileM(meta, p) == SliceDotsM(SectionsM(meta, p.items), DotsIn(p.items));
    if !v.Slice? { NothingIsElided(SectionsM(meta, p.items), DotsIn(p.items), d); }
  }

  lemma {:induction false} ListFromItems(vs: seq<Value>, v: Value)
    requires IsSlice(v) && v.t.SliceT? && WellTyped(v) && SameAll(vs, Items(v))
    ensures Same(if vs == [] then Nil(v.t) else Slice(v.t, vs), v)
  {
    SameSliceOf(vs, v);
  }

  lemma {:induction false} ReplaceDotsList(meta: Meta, q: Value, v: Value, d: Env, assoc: Assoc, pos: Pos)
    requires q.Slice? && Elidable(q.t) && q.t.SliceT? && FirstDots(q.items) < |q.items| && IsSlice(v) && v.t == q.t && WellTyped(v)
    requires RestoresAll(ReplaceSections(SectionsR(meta, q.items), DotsIn(q.items), d, assoc, pos), Items(v))
    ensures Restores(Replace(CompileR(meta, q), d, assoc, pos), v)
  {
    hide ReplaceSections, SectionsR, Eq, WellTyped, FirstDots, DotsItem;
    assert DotsIn(q.items) != [] by { CutDots(q.items); }
    assert CompileR(meta, q) == SliceDotsR(q.t, SectionsR(meta, q.items), DotsIn(q.items));
    hide CompileR, DotsIn;
    ListFromItems(ReplaceSections(SectionsR(meta, q.items), DotsIn(q.items), d, assoc, pos).value, v);
  }

  lemma {:induction false} ListRestored(meta: Meta, p: Value, q: Value, v: Value, d: Env, d2: Env, assoc: Assoc, pos: Pos)
    requires Same(p, q) && Plain(v) && Facing(p, v) && p.Slice?
    requires Sane(d) && pos.IsValid()
    requires Match(CompileM(meta, p), v, d).Some?
    requires Ready(assoc, DotsOf(p), DotsOf(q), Match(CompileM(meta, p), v, d).value, d2)
    ensures Restores(Replace(CompileR(meta, q), d2, assoc, pos), v)
    decreases p, 2
  {
    hide Match, Replace, WellTyped, DotsFree, Eq, SectionsM, SectionsR, MatchElided, MatchNothing, Ready;
    hide DotsOf, DotsOfAll, DotsIn, SameAll, FacingAll, PlainAll;
    var ps, qs, k := p.items, Items(q), FirstDots(p.items);
    SliceParts(p, q, v);
    ListDots(p);
    ListDots(q);
    if !Elidable(p.t) {
      SliceRestored(meta, p, q, v, d, d2, assoc, pos);
    } else {
      SameFirstDots(ps, qs);
      if k == |ps| {
        NoDotsInList(meta, ps);
        NoDotsInList(meta, qs);
        SliceRestored(meta, p, q, v, d, d2, assoc, pos);
      } else {
        MatchDotsList(meta, p, v, d);
        ElidedRestored(meta, ps, qs, Items(v), d, d2, assoc, pos);
        ReplaceDotsList(meta, q, v, d2, assoc, pos);
      }
    }
  }

  // -------------------------------------------------------------------- whole patches

  /** Every lookup answers alike, as in an environment and its index. */
  ghost predicate SameAnswers(d1: Env, d2: Env) {
    forall k :: d2.Value(k) == d1.Value(k)
  }

  lemma {:induction false} NilRestored(meta: Meta, minus: Value, plus: Value, v: Value, d: Env, assoc: Assoc, pos: Pos)
    requires NilPtr(minus) && Eq(minus, plus) && Unify.InPlace(minus, v) && Match(CompileM(meta, minus), v, New).Some?
    ensures v.Nil? && Replace(CompileR(meta, plus), d, assoc, pos).Some?
    ensures Eq(Replace(CompileR(meta, plus), d, assoc, pos).value, v)
  {
  }

  lemma {:induction false} SameStaticType(minus: Value, plus: Value, v: Value)
    requires !NilPtr(minus) && Eq(minus, plus) && Unify.InPlace(minus, v)
    ensures TypeOf(minus) == TypeOf(plus) && Facing(minus, v)
  {
  }

  /**
   * A patch with the same code on both sides, its `...`s associated pairwise, is a no-op: wherever the minus side matches,
   * the plus side rebuilds the matched tree, up to positions, comments, objects and empty lists. What it builds is a tree
   * of the same type that the Go type system admits; only which nil pointer a nil pointer is replaced by may differ.
   */
  lemma {:induction false} SamePatchIsNoOp(meta: Meta, minus: Value, plus: Value, v: Value, d: Env, assoc: Assoc, pos: Pos)
    requires WellTyped(minus) && WellTyped(plus) && Eq(minus, plus) && Plain(v) && Unify.InPlace(minus, v)
    requires Linked(assoc, DotsOf(minus), DotsOf(plus)) && Distinct(DotsOf(minus)) && pos.IsValid()
    requires Match(CompileM(meta, minus), v, New).Some?
    requires SameAnswers(Match(CompileM(meta, minus), v, New).value, d)
    ensures var r := Replace(CompileR(meta, plus), d, assoc, pos);
      r.Some? && Eq(r.value, v) && (!v.Nil? ==> Same(r.value, v))
  {
    hide Match, CompileM, Replace, CompileR, WellTyped, DotsFree, Eq, DotsOf;
    if NilPtr(minus) {
      NilRestored(meta, minus, plus, v, d, assoc, pos);
    } else {
      SameStaticType(minus, plus, v);
      var d1 := Match(CompileM(meta, minus), v, New).value;
      assert Survives(d1, d, SetOf(DotsOf(minus))) by {
        assert forall x :: d.Value(MetaKey(x)) == d1.Value(MetaKey(x));
      }
      SameSides(meta, minus, plus, v, New, d, assoc, pos);
    }
  }
}
