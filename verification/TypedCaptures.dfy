/** Nil captures: a metavariable captures a nil pointer only where the Go type is *ast.Ident. */
module TypedCaptures {
  import opened Wrappers
  import opened Data
  import opened Tree
  import opened Engine
  import opened Capture

  function ElemType(t: Type): Type {
    if t.SliceT? then t.elem else PosT
  }

  /** Used where the Go type is t, the matcher has metavariables only where that is *ast.Ident, or inside interfaces. */
  predicate Guarded(m: Matcher, t: Type) {
    match m
    case MetavarM(_, _) => t == IDENT_PTR
    case PtrM(m1) => Guarded(m1, PosT)
    case IfaceM(m1) => m1.MetavarM? || Guarded(m1, PosT)
    case SliceM(items) => GuardedAll(items, ElemType(t))
    case StructM(t1, fields) =>
      t1.StructT? && |fields| == |t1.layout| && forall i | 0 <= i < |fields| :: Guarded(fields[i], t1.layout[i])
    case SliceDotsM(sections, _) => forall i | 0 <= i < |sections| :: GuardedAll(sections[i].items, ElemType(t))
    case ForDotsM(_, body) => Guarded(body, PtrT(BLOCK_STMT))
    case _ => true
  }

  predicate GuardedAll(ms: seq<Matcher>, t: Type) {
    forall i | 0 <= i < |ms| :: Guarded(ms[i], t)
  }

  lemma {:induction false} GuardedSections(meta: Meta, items: seq<Value>, t: Type)
    requires forall i | 0 <= i < |items| :: Guarded(CompileM(meta, items[i]), t)
    ensures forall i | 0 <= i < |SectionsM(meta, items)| :: GuardedAll(SectionsM(meta, items)[i].items, t)
    decreases |items|
  {
    hide CompileM, Guarded, DotsItem;
    if items != [] {
      assert forall i | 0 <= i < |items[1..]| :: items[1..][i] == items[i + 1];
      GuardedSections(meta, items[1..], t);
      var rest := SectionsM(meta, items[1..]);
      assert GuardedAll(rest[0].items, t) && GuardedAll([CompileM(meta, items[0])] + rest[0].items, t);
    }
  }

  /** Compiled patterns are. */
  lemma {:induction false} CompiledIsGuarded(meta: Meta, p: Value)
    requires WellTyped(p)
    ensures Guarded(CompileM(meta, p), TypeOf(p))
    decreases p
  {
    if !Cut(TypeOf(p)) {
      match p
      case Ptr(_, e) =>
        CompiledIsGuarded(meta, e);
        if ForDots(p).Some? { CompiledIsGuarded(meta, e.fields[4]); }
      case Iface(_, e) => CompiledIsGuarded(meta, e);
      case Slice(t, items) =>
        forall i | 0 <= i < |items| ensures Guarded(CompileM(meta, items[i]), t.elem) { CompiledIsGuarded(meta, items[i]); }
        GuardedSections(meta, items, t.elem);
      case Struct(t, fields) =>
        forall i | 0 <= i < |fields| ensures Guarded(CompileM(meta, fields[i]), t.layout[i]) {
          CompiledIsGuarded(meta, fields[i]);
        }
      case _ =>
    }
  }

  /** What is captured is not nil, or a nil *ast.Ident. */
  ghost predicate NilsAreNames(d: Env) {
    forall x :: Bound(d, x).Some? && Bound(d, x).value.Nil? ==> Bound(d, x).value.t == IDENT_PTR
  }

  lemma {:induction false} NilsWith(d: Env, k: Key, v: Entry)
    requires NilsAreNames(d) && !k.MetaKey?
    ensures NilsAreNames(With(d, k, v))
  {
    assert forall x :: Bound(With(d, k, v), x) == Bound(d, x);
  }

  ghost predicate TypedAll(vs: seq<Value>) {
    forall i | 0 <= i < |vs| :: WellTyped(vs[i])
  }

  lemma {:induction false} VariableKeepsNils(m: Matcher, got: Value, d: Env)
    requires m.MetavarM? && Match(m, got, d).Some? && NilsAreNames(d) && (got.Nil? ==> got.t == IDENT_PTR)
    ensures NilsAreNames(Match(m, got, d).value)
  {
    hide CompileM;
    var d1 := Match(m, got, d).value;
    forall x | Bound(d1, x).Some? && Bound(d1, x).value.Nil? ensures Bound(d1, x).value.t == IDENT_PTR {
      assert x == m.name || Bound(d1, x) == Bound(d, x);
    }
  }

  lemma {:induction false} NothingKeepsNils(dots: seq<Pos>, d: Env)
    requires NilsAreNames(d)
    ensures NilsAreNames(SkipNothing(dots, d))
  {
    hide NilsAreNames;
    if dots != [] {
      NilsWith(d, DotsKey(dots[0]), Skipped([]));
      NothingKeepsNils(dots[1..], With(d, DotsKey(dots[0]), Skipped([])));
    }
  }

  lemma {:induction false} MatchKeepsNils(m: Matcher, t: Type, got: Value, d: Env)
    requires Match(m, got, d).Some? && WellTyped(got) && Guarded(m, t) && NilsAreNames(d)
    requires got.Nil? || got.Slice? ==> TypeOf(got) == t
    ensures NilsAreNames(Match(m, got, d).value)
    decreases got, if Closed(m) then 0 else 1
  {
    hide NilsAreNames;
    match m
    case PtrM(m1) => MatchKeepsNils(m1, PosT, got.elem, d);
    case IfaceM(m1) =>
      if m1.MetavarM? { VariableKeepsNils(m1, got.elem, d); } else { MatchKeepsNils(m1, PosT, got.elem, d); }
    case SliceM(items) => if got.Slice? { PrefixKeepsNils(items, seq(|items|, i => t.elem), got.items, d, 0); }
    case StructM(t1, fields) => PrefixKeepsNils(fields, t1.layout, got.fields, d, 0);
    case SliceDotsM(sections, dots) =>
      if got.Slice? { ElidedKeepsNils(sections, t.elem, dots, got.items, d); } else { NothingKeepsNils(dots, d); }
    case ForDotsM(pos, body) =>
      var idx := BodyIndex(got.elem.t).value;
      var around := Around(got.elem.t, idx, OthersOf(got.elem.fields, idx));
      NilsWith(d, ForKey(pos), around);
      MatchKeepsNils(body, PtrT(BLOCK_STMT), got.elem.fields[idx], With(d, ForKey(pos), around));
    case PosM(p) => NilsWith(d, PosKey(p.Line(), p.Column()), Seen(got.pos));
    case MetavarM(_, _) => VariableKeepsNils(m, got, d);
    case _ =>
  }

  lemma {:induction false} PrefixKeepsNils(want: seq<Matcher>, ts: seq<Type>, got: seq<Value>, d: Env, idx: nat)
    requires idx <= |got| && MatchPrefix(want, got, d, idx).Some? && TypedAll(got) && NilsAreNames(d) && |ts| == |want|
    requires forall i | 0 <= i < |want| :: Guarded(want[i], ts[i]) && TypeOf(got[idx + i]) == ts[i]
    ensures NilsAreNames(MatchPrefix(want, got, d, idx).value)
    decreases got, 0, |want|
  {
    hide NilsAreNames, Guarded, WellTyped;
    if want != [] {
      assert TypeOf(got[idx + 0]) == ts[0];
      MatchKeepsNils(want[0], ts[0], got[idx], d);
      forall i | 0 <= i < |want[1..]| ensures Guarded(want[1..][i], ts[1..][i]) && TypeOf(got[idx + 1 + i]) == ts[1..][i] {
        assert TypeOf(got[idx + (i + 1)]) == ts[i + 1];
      }
      PrefixKeepsNils(want[1..], ts[1..], got, Match(want[0], got[idx], d).value, idx + 1);
    }
  }

  /** The items of a list have one type. */
  ghost predicate ItemsOf(t: Type, got: seq<Value>) {
    forall i | 0 <= i < |got| :: TypeOf(got[i]) == t
  }

  lemma {:induction false} RunKeepsNils(want: seq<Matcher>, t: Type, got: seq<Value>, d: Env, idx: nat)
    requires idx <= |got| && MatchPrefix(want, got, d, idx).Some? && TypedAll(got) && NilsAreNames(d)
    requires GuardedAll(want, t) && ItemsOf(t, got)
    ensures NilsAreNames(MatchPrefix(want, got, d, idx).value)
    decreases got, 0, |want| + 1
  {
    hide NilsAreNames, Guarded, WellTyped, MatchPrefix;
    PrefixKeepsNils(want, seq(|want|, i => t), got, d, idx);
  }

  lemma {:induction false} SectionKeepsNils(pos: Pos, want: seq<Matcher>, t: Type, got: seq<Value>, d: Env, idx: nat, i: nat)
    requires idx <= i <= |got| && FindSection(pos, want, got, d, idx, i).Some? && TypedAll(got) && NilsAreNames(d)
    requires GuardedAll(want, t) && ItemsOf(t, got)
    ensures NilsAreNames(FindSection(pos, want, got, d, idx, i).value.1)
    decreases got, 1, |got| - i
  {
    hide NilsAreNames, Guarded, WellTyped, MatchPrefix;
    NilsWith(d, DotsKey(pos), Skipped(got[idx..]));
    NilsWith(d, DotsKey(pos), Skipped(got[idx..i]));
    if want != [] {
      var d1 := With(d, DotsKey(pos), Skipped(got[idx..i]));
      if MatchPrefix(want, got, d1, i).Some? {
        RunKeepsNils(want, t, got, d1, i);
      } else {
        SectionKeepsNils(pos, want, t, got, d, idx, i + 1);
      }
    }
  }

  lemma {:induction false} SectionsKeepNils(
      sections: seq<Section<Matcher>>, t: Type, dots: seq<Pos>, got: seq<Value>, d: Env, idx: nat)
    requires |sections| == |dots| && idx <= |got| && FindSections(sections, dots, got, d, idx).Some?
    requires TypedAll(got) && NilsAreNames(d) && ItemsOf(t, got)
    requires forall i | 0 <= i < |sections| :: GuardedAll(sections[i].items, t)
    ensures NilsAreNames(FindSections(sections, dots, got, d, idx).value.1)
    decreases got, 2, |sections|
  {
    hide NilsAreNames, GuardedAll, WellTyped, MatchPrefix, FindSection;
    if sections != [] {
      SectionKeepsNils(dots[0], sections[0].items, t, got, d, idx, idx);
      var (idx1, d1) := FindSection(dots[0], sections[0].items, got, d, idx, idx).value;
      SectionsKeepNils(sections[1..], t, dots[1..], got, d1, idx1);
    }
  }

  lemma {:induction false} ElidedKeepsNils(sections: seq<Section<Matcher>>, t: Type, dots: seq<Pos>, got: seq<Value>, d: Env)
    requires |sections| == |dots| + 1 && MatchElided(sections, dots, got, d).Some?
    requires TypedAll(got) && NilsAreNames(d) && ItemsOf(t, got)
    requires forall i | 0 <= i < |sections| :: GuardedAll(sections[i].items, t)
    ensures NilsAreNames(MatchElided(sections, dots, got, d).value)
    decreases got, 3
  {
    hide NilsAreNames, GuardedAll, WellTyped, MatchPrefix, FindSections;
    RunKeepsNils(sections[0].items, t, got, d, 0);
    SectionsKeepNils(sections[1..], t, dots, got, MatchPrefix(sections[0].items, got, d, 0).value, |sections[0].items|);
  }
}
