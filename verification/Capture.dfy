/** The environment along a match: what is captured stays captured. */
module Capture {
  import opened Wrappers
  import opened Data
  import opened Tree
  import opened Engine

  function SetOf(dots: seq<Pos>): set<Pos> {
    set p | p in dots
  }

  /** The `...`s whose runs a matcher records. */
  function DotsM(m: Matcher): set<Pos> {
    match m
    case PtrM(m) => DotsM(m)
    case IfaceM(m) => DotsM(m)
    case SliceM(items) => DotsAllM(items)
    case StructM(_, fields) => DotsAllM(fields)
    case SliceDotsM(sections, dots) => DotsSecsM(sections) + SetOf(dots)
    case ForDotsM(pos, body) => DotsM(body) + {pos}
    case _ => {}
  }

  function DotsAllM(ms: seq<Matcher>): set<Pos> {
    if ms == [] then {} else DotsM(ms[0]) + DotsAllM(ms[1..])
  }

  function DotsSecsM(sections: seq<Section<Matcher>>): set<Pos> {
    if sections == [] then {} else DotsAllM(sections[0].items) + DotsSecsM(sections[1..])
  }

  /** The metavariables that a matcher looks up. */
  function VarsM(m: Matcher): set<string> {
    match m
    case MetavarM(name, _) => {name}
    case PtrM(m) => VarsM(m)
    case IfaceM(m) => VarsM(m)
    case SliceM(items) => VarsAllM(items)
    case StructM(_, fields) => VarsAllM(fields)
    case SliceDotsM(sections, _) => VarsSecsM(sections)
    case ForDotsM(_, body) => VarsM(body)
    case _ => {}
  }

  function VarsAllM(ms: seq<Matcher>): set<string> {
    if ms == [] then {} else VarsM(ms[0]) + VarsAllM(ms[1..])
  }

  function VarsSecsM(sections: seq<Section<Matcher>>): set<string> {
    if sections == [] then {} else VarsAllM(sections[0].items) + VarsSecsM(sections[1..])
  }

  /**
   * Matching with the given `...`s and metavariables cannot touch the key: it is a metavariable that is bound already or
   * that the matcher does not mention, or it belongs to another `...`.
   */
  predicate Settled(k: Key, dots: set<Pos>, vars: set<string>, d: Env) {
    match k
    case MetaKey(x) => x !in vars || (d.Value(k).Some? && d.Value(k).value.Captured?)
    case DotsKey(p) => p !in dots
    case ForKey(p) => p !in dots
    case PosKey(_, _) => false
    case StmtListKey => true
  }

  lemma {:induction false} NothingKeeps(dots: seq<Pos>, d: Env, k: Key)
    requires Settled(k, SetOf(dots), {}, d)
    ensures SkipNothing(dots, d).Value(k) == d.Value(k)
  {
    if dots != [] {
      assert dots[0] in SetOf(dots) && SetOf(dots[1..]) <= SetOf(dots);
      NothingKeeps(dots[1..], With(d, DotsKey(dots[0]), Skipped([])), k);
    }
  }

  /**
   * A metavariable that is bound is never bound again, neither by the match that succeeds nor by the elision attempts
   * that are given up on the way; and a matcher records runs for its own `...`s only.
   */
  lemma {:induction false} MatchKeeps(m: Matcher, got: Value, d: Env, k: Key)
    requires Match(m, got, d).Some? && Settled(k, DotsM(m), VarsM(m), d)
    ensures Match(m, got, d).value.Value(k) == d.Value(k)
    decreases got, if Closed(m) then 0 else 1
  {
    match m
    case PtrM(m1) => MatchKeeps(m1, got.elem, d, k);
    case IfaceM(m1) => MatchKeeps(m1, got.elem, d, k);
    case SliceM(items) => if got.Slice? { PrefixKeeps(items, got.items, d, 0, k); }
    case StructM(_, fields) => PrefixKeeps(fields, got.fields, d, 0, k);
    case SliceDotsM(sections, dots) =>
      if got.Slice? {
        ElidedKeeps(sections, dots, got.items, d, k);
      } else {
        NothingKeeps(dots, d, k);
      }
    case ForDotsM(pos, body) =>
      var idx := BodyIndex(got.elem.t).value;
      var d1 := With(d, ForKey(pos), Around(got.elem.t, idx, OthersOf(got.elem.fields, idx)));
      MatchKeeps(body, got.elem.fields[idx], d1, k);
    case _ =>
  }

  lemma {:induction false} PrefixKeeps(want: seq<Matcher>, got: seq<Value>, d: Env, idx: nat, k: Key)
    requires idx <= |got| && MatchPrefix(want, got, d, idx).Some? && Settled(k, DotsAllM(want), VarsAllM(want), d)
    ensures MatchPrefix(want, got, d, idx).value.Value(k) == d.Value(k)
    decreases got, 0, |want|
  {
    if want != [] {
      MatchKeeps(want[0], got[idx], d, k);
      PrefixKeeps(want[1..], got, Match(want[0], got[idx], d).value, idx + 1, k);
    }
  }

  lemma {:induction false} SectionKeeps(pos: Pos, want: seq<Matcher>, got: seq<Value>, d: Env, idx: nat, i: nat, k: Key)
    requires idx <= i <= |got| && FindSection(pos, want, got, d, idx, i).Some?
    requires Settled(k, DotsAllM(want) + {pos}, VarsAllM(want), d)
    ensures FindSection(pos, want, got, d, idx, i).value.1.Value(k) == d.Value(k)
    decreases got, 1, |got| - i
  {
    if want != [] {
      var d1 := With(d, DotsKey(pos), Skipped(got[idx..i]));
      if MatchPrefix(want, got, d1, i).Some? {
        PrefixKeeps(want, got, d1, i, k);
      } else {
        SectionKeeps(pos, want, got, d, idx, i + 1, k);
      }
    }
  }

  lemma {:induction false} SectionsKeep(
      sections: seq<Section<Matcher>>, dots: seq<Pos>, got: seq<Value>, d: Env, idx: nat, k: Key)
    requires |sections| == |dots| && idx <= |got| && FindSections(sections, dots, got, d, idx).Some?
    requires Settled(k, DotsSecsM(sections) + SetOf(dots), VarsSecsM(sections), d)
    ensures FindSections(sections, dots, got, d, idx).value.1.Value(k) == d.Value(k)
    decreases got, 2, |sections|
  {
    if sections != [] {
      assert dots[0] in SetOf(dots) && SetOf(dots[1..]) <= SetOf(dots);
      SectionKeeps(dots[0], sections[0].items, got, d, idx, idx, k);
      var (idx1, d1) := FindSection(dots[0], sections[0].items, got, d, idx, idx).value;
      SectionsKeep(sections[1..], dots[1..], got, d1, idx1, k);
    }
  }

  lemma {:induction false} ElidedKeeps(sections: seq<Section<Matcher>>, dots: seq<Pos>, got: seq<Value>, d: Env, k: Key)
    requires |sections| == |dots| + 1 && MatchElided(sections, dots, got, d).Some?
    requires Settled(k, DotsSecsM(sections) + SetOf(dots), VarsSecsM(sections), d)
    ensures MatchElided(sections, dots, got, d).value.Value(k) == d.Value(k)
    decreases got, 3
  {
    PrefixKeeps(sections[0].items, got, d, 0, k);
    var d1 := MatchPrefix(sections[0].items, got, d, 0).value;
    SectionsKeep(sections[1..], dots, got, d1, |sections[0].items|, k);
  }

  /** A matcher without metavariables mentions none. */
  lemma {:induction false} ClosedHasNoVars(m: Matcher)
    requires Closed(m)
    ensures VarsM(m) == {}
    decreases m, 1
  {
    match m
    case PtrM(m1) => ClosedHasNoVars(m1);
    case IfaceM(m1) => ClosedHasNoVars(m1);
    case SliceM(items) => ClosedItemsHaveNoVars(items);
    case StructM(_, fields) => ClosedItemsHaveNoVars(fields);
    case SliceDotsM(sections, _) => ClosedSectionsHaveNoVars(sections);
    case ForDotsM(_, body) => ClosedHasNoVars(body);
    case _ =>
  }

  lemma {:induction false} ClosedItemsHaveNoVars(ms: seq<Matcher>)
    requires ClosedAll(ms)
    ensures VarsAllM(ms) == {}
    decreases ms, 0
  {
    if ms != [] {
      ClosedHasNoVars(ms[0]);
      ClosedItemsHaveNoVars(ms[1..]);
    }
  }

  lemma {:induction false} ClosedSectionsHaveNoVars(sections: seq<Section<Matcher>>)
    requires ClosedSecs(sections)
    ensures VarsSecsM(sections) == {}
    decreases sections, 0
  {
    if sections != [] {
      ClosedItemsHaveNoVars(sections[0].items);
      ClosedSectionsHaveNoVars(sections[1..]);
    }
  }

  // ----------------------------------------------------- what a match has bound

  function Bound(d: Env, x: string): Option<Value> {
    match d.Value(MetaKey(x))
    case Some(Captured(v)) => Some(v)
    case _ => None
  }

  lemma {:induction false} EmptyHasNoVars(sections: seq<Section<Matcher>>)
    requires forall i | 0 <= i < |sections| :: sections[i].items == []
    ensures VarsSecsM(sections) == {}
  {
    if sections != [] {
      EmptyHasNoVars(sections[1..]);
    }
  }

  /** A match binds every metavariable that the matcher mentions. */
  lemma {:induction false} MatchBinds(m: Matcher, got: Value, d: Env, x: string)
    requires Match(m, got, d).Some? && x in VarsM(m)
    ensures Bound(Match(m, got, d).value, x).Some?
    decreases got, if Closed(m) then 0 else 1
  {
    match m
    case PtrM(m1) => MatchBinds(m1, got.elem, d, x);
    case IfaceM(m1) => MatchBinds(m1, got.elem, d, x);
    case SliceM(items) => if got.Slice? { PrefixBinds(items, got.items, d, 0, x); }
    case StructM(_, fields) => PrefixBinds(fields, got.fields, d, 0, x);
    case SliceDotsM(sections, dots) =>
      if got.Slice? {
        ElidedBinds(sections, dots, got.items, d, x);
      } else {
        EmptyHasNoVars(sections);
      }
    case ForDotsM(pos, body) =>
      var idx := BodyIndex(got.elem.t).value;
      var d1 := With(d, ForKey(pos), Around(got.elem.t, idx, OthersOf(got.elem.fields, idx)));
      MatchBinds(body, got.elem.fields[idx], d1, x);
    case _ =>
  }

  lemma {:induction false} PrefixBinds(want: seq<Matcher>, got: seq<Value>, d: Env, idx: nat, x: string)
    requires idx <= |got| && MatchPrefix(want, got, d, idx).Some? && x in VarsAllM(want)
    ensures Bound(MatchPrefix(want, got, d, idx).value, x).Some?
    decreases got, 0, |want|
  {
    var d1 := Match(want[0], got[idx], d).value;
    if x in VarsM(want[0]) {
      MatchBinds(want[0], got[idx], d, x);
      PrefixKeeps(want[1..], got, d1, idx + 1, MetaKey(x));
    } else {
      PrefixBinds(want[1..], got, d1, idx + 1, x);
    }
  }

  lemma {:induction false} SectionBinds(pos: Pos, want: seq<Matcher>, got: seq<Value>, d: Env, idx: nat, i: nat, x: string)
    requires idx <= i <= |got| && FindSection(pos, want, got, d, idx, i).Some? && x in VarsAllM(want)
    ensures Bound(FindSection(pos, want, got, d, idx, i).value.1, x).Some?
    decreases got, 1, |got| - i
  {
    var d1 := With(d, DotsKey(pos), Skipped(got[idx..i]));
    if MatchPrefix(want, got, d1, i).Some? {
      PrefixBinds(want, got, d1, i, x);
    } else {
      SectionBinds(pos, want, got, d, idx, i + 1, x);
    }
  }

  lemma {:induction false} SectionsBind(
      sections: seq<Section<Matcher>>, dots: seq<Pos>, got: seq<Value>, d: Env, idx: nat, x: string)
    requires |sections| == |dots| && idx <= |got| && FindSections(sections, dots, got, d, idx).Some?
    requires x in VarsSecsM(sections)
    ensures Bound(FindSections(sections, dots, got, d, idx).value.1, x).Some?
    decreases got, 2, |sections|
  {
    var (idx1, d1) := FindSection(dots[0], sections[0].items, got, d, idx, idx).value;
    if x in VarsAllM(sections[0].items) {
      SectionBinds(dots[0], sections[0].items, got, d, idx, idx, x);
      SectionsKeep(sections[1..], dots[1..], got, d1, idx1, MetaKey(x));
    } else {
      SectionsBind(sections[1..], dots[1..], got, d1, idx1, x);
    }
  }

  lemma {:induction false} ElidedBinds(sections: seq<Section<Matcher>>, dots: seq<Pos>, got: seq<Value>, d: Env, x: string)
    requires |sections| == |dots| + 1 && MatchElided(sections, dots, got, d).Some? && x in VarsSecsM(sections)
    ensures Bound(MatchElided(sections, dots, got, d).value, x).Some?
    decreases got, 3
  {
    var d1 := MatchPrefix(sections[0].items, got, d, 0).value;
    if x in VarsAllM(sections[0].items) {
      PrefixBinds(sections[0].items, got, d, 0, x);
      SectionsKeep(sections[1..], dots, got, d1, |sections[0].items|, MetaKey(x));
    } else {
      SectionsBind(sections[1..], dots, got, d1, |sections[0].items|, x);
    }
  }

  // ------------------------------------------------------- captured trees

  /** No list of the tree has a `...` among its items, and no loop is a `for ...`. */
  ghost predicate DotsFree(v: Value) {
    match v
    case Ptr(_, e) => ForDots(v).None? && DotsFree(e)
    case Iface(_, e) => DotsFree(e)
    case Slice(_, items) => DotsFreeAll(items)
    case Struct(_, fields) => forall i | 0 <= i < |fields| :: DotsFree(fields[i])
    case _ => true
  }

  ghost predicate DotsFreeAll(items: seq<Value>) {
    forall i | 0 <= i < |items| :: DotsItem(items[i]).None? && DotsFree(items[i])
  }

  /** A well-typed tree of ordinary Go code. */
  ghost predicate Plain(v: Value) {
    WellTyped(v) && DotsFree(v)
  }

  ghost predicate PlainEnv(d: Env) {
    forall x :: Bound(d, x).Some? ==> Plain(Bound(d, x).value) && IsExpression(TypeOf(Bound(d, x).value))
  }

  ghost predicate PlainAll(vs: seq<Value>) {
    forall i | 0 <= i < |vs| :: Plain(vs[i])
  }

  lemma {:induction false} PlainParts(v: Value)
    requires Plain(v)
    ensures v.Ptr? || v.Iface? ==> Plain(v.elem)
    ensures v.Ptr? ==> ForDots(v).None?
    ensures v.Slice? ==> PlainAll(v.items) && DotsFreeAll(v.items)
    ensures v.Struct? ==> PlainAll(v.fields)
  {
    if v.Slice? {
      forall i | 0 <= i < |v.items| ensures Plain(v.items[i]) {
        assert DotsFreeAll(v.items);
        assert WellTyped(v.items[i]);
      }
    }
  }

  lemma {:induction false} SkippingIsPlain(d: Env, pos: Pos, items: seq<Value>)
    requires PlainEnv(d)
    ensures PlainEnv(With(d, DotsKey(pos), Skipped(items)))
  {
    assert forall x :: Bound(With(d, DotsKey(pos), Skipped(items)), x) == Bound(d, x);
  }

  lemma {:induction false} NothingCaptured(dots: seq<Pos>, d: Env)
    requires PlainEnv(d)
    ensures PlainEnv(SkipNothing(dots, d))
  {
    if dots != [] {
      SkippingIsPlain(d, dots[0], []);
      NothingCaptured(dots[1..], With(d, DotsKey(dots[0]), Skipped([])));
    }
  }

  /** Only expressions of the target are ever captured. */
  lemma {:induction false} MatchCapturesPlain(m: Matcher, got: Value, d: Env)
    requires Match(m, got, d).Some? && PlainEnv(d)
    requires Plain(got)
    ensures PlainEnv(Match(m, got, d).value)
    decreases got, if Closed(m) then 0 else 1
  {
    hide WellTyped, DotsFree;
    PlainParts(got);
    match m
    case PtrM(m1) => MatchCapturesPlain(m1, got.elem, d);
    case IfaceM(m1) => MatchCapturesPlain(m1, got.elem, d);
    case SliceM(items) => if got.Slice? { PrefixCapturesPlain(items, got.items, d, 0); }
    case StructM(_, fields) => PrefixCapturesPlain(fields, got.fields, d, 0);
    case SliceDotsM(sections, dots) =>
      if got.Slice? {
        PrefixCapturesPlain(sections[0].items, got.items, d, 0);
        var d1 := MatchPrefix(sections[0].items, got.items, d, 0).value;
        SectionsCapturePlain(sections[1..], dots, got.items, d1, |sections[0].items|);
      } else {
        NothingCaptured(dots, d);
      }
    case ForDotsM(pos, body) =>
      var idx := BodyIndex(got.elem.t).value;
      var d1 := With(d, ForKey(pos), Around(got.elem.t, idx, OthersOf(got.elem.fields, idx)));
      assert forall x :: Bound(d1, x) == Bound(d, x);
      PlainParts(got.elem);
      MatchCapturesPlain(body, got.elem.fields[idx], d1);
    case PosM(p) =>
      assert forall x :: Bound(Match(m, got, d).value, x) == Bound(d, x);
    case MetavarM(name, _) =>
      var d1 := Match(m, got, d).value;
      forall x | Bound(d1, x).Some?
        ensures Plain(Bound(d1, x).value) && IsExpression(TypeOf(Bound(d1, x).value))
      {
        assert x == name || Bound(d1, x) == Bound(d, x);
      }
    case _ =>
  }

  lemma {:induction false} PrefixCapturesPlain(want: seq<Matcher>, got: seq<Value>, d: Env, idx: nat)
    requires idx <= |got| && MatchPrefix(want, got, d, idx).Some? && PlainEnv(d) && PlainAll(got)
    ensures PlainEnv(MatchPrefix(want, got, d, idx).value)
    decreases got, 0, |want|
  {
    if want != [] {
      MatchCapturesPlain(want[0], got[idx], d);
      PrefixCapturesPlain(want[1..], got, Match(want[0], got[idx], d).value, idx + 1);
    }
  }

  lemma {:induction false} SectionCapturesPlain(pos: Pos, want: seq<Matcher>, got: seq<Value>, d: Env, idx: nat, i: nat)
    requires idx <= i <= |got| && FindSection(pos, want, got, d, idx, i).Some? && PlainEnv(d) && PlainAll(got)
    ensures PlainEnv(FindSection(pos, want, got, d, idx, i).value.1)
    decreases got, 1, |got| - i
  {
    if want == [] {
      SkippingIsPlain(d, pos, got[idx..]);
    } else {
      var d1 := With(d, DotsKey(pos), Skipped(got[idx..i]));
      SkippingIsPlain(d, pos, got[idx..i]);
      if MatchPrefix(want, got, d1, i).Some? {
        PrefixCapturesPlain(want, got, d1, i);
      } else {
        SectionCapturesPlain(pos, want, got, d, idx, i + 1);
      }
    }
  }

  lemma {:induction false} SectionsCapturePlain(
      sections: seq<Section<Matcher>>, dots: seq<Pos>, got: seq<Value>, d: Env, idx: nat)
    requires |sections| == |dots| && idx <= |got| && FindSections(sections, dots, got, d, idx).Some?
    requires PlainEnv(d) && PlainAll(got)
    ensures PlainEnv(FindSections(sections, dots, got, d, idx).value.1)
    decreases got, 2, |sections|
  {
    if sections != [] {
      SectionCapturesPlain(dots[0], sections[0].items, got, d, idx, idx);
      var (idx1, d1) := FindSection(dots[0], sections[0].items, got, d, idx, idx).value;
      SectionsCapturePlain(sections[1..], dots[1..], got, d1, idx1);
    }
  }
}
