/** Lists with `...`: what leftmost search without backtracking finds, and what becomes of the skipped items. */
module Elision {
  import opened Wrappers
  import opened Data
  import opened Tree
  import opened Engine
  import opened Capture
  import Unify

  // --------------------------------------------------- independence of captures

  /** The two environments have the same captures for the given metavariables. */
  ghost predicate Agree(d: Env, e: Env, vars: iset<string>) {
    forall x | x in vars :: Bound(d, x) == Bound(e, x)
  }

  ghost const ALL_NAMES: iset<string> := iset x: string | true

  lemma {:induction false} AgreeWith(d: Env, e: Env, vars: iset<string>, k: Key, v: Entry, w: Entry)
    requires Agree(d, e, vars) && !k.MetaKey?
    ensures Agree(With(d, k, v), With(e, k, w), vars)
  {
    forall x | x in vars ensures Bound(With(d, k, v), x) == Bound(With(e, k, w), x) {
      assert Bound(d, x) == Bound(e, x);
    }
  }

  lemma {:induction false} AgreeOnPos(d: Env, e: Env, vars: iset<string>, p: Pos, got: Value)
    requires Agree(d, e, vars)
    ensures Match(PosM(p), got, d).Some? ==> Agree(Match(PosM(p), got, d).value, Match(PosM(p), got, e).value, vars)
  {
    if got.PosV? { AgreeWith(d, e, vars, PosKey(p.Line(), p.Column()), Seen(got.pos), Seen(got.pos)); }
  }

  lemma {:induction false} AgreeOnVariable(m: Matcher, got: Value, d: Env, e: Env, vars: iset<string>)
    requires Agree(d, e, vars) && m.MetavarM? && m.name in vars
    ensures Match(m, got, d).Some? <==> Match(m, got, e).Some?
    ensures Match(m, got, d).Some? ==> Agree(Match(m, got, d).value, Match(m, got, e).value, vars)
  {
    hide CompileM;
    assert Bound(d, m.name) == Bound(e, m.name);
    if Match(m, got, d).Some? {
      var d1, e1 := Match(m, got, d).value, Match(m, got, e).value;
      forall x | x in vars ensures Bound(d1, x) == Bound(e1, x) { assert Bound(d, x) == Bound(e, x); }
    }
  }

  lemma {:induction false} NothingAgrees(dots: seq<Pos>, d: Env, e: Env, vars: iset<string>)
    requires Agree(d, e, vars)
    ensures Agree(SkipNothing(dots, d), SkipNothing(dots, e), vars)
  {
    hide Agree;
    if dots != [] {
      AgreeWith(d, e, vars, DotsKey(dots[0]), Skipped([]), Skipped([]));
      NothingAgrees(dots[1..], With(d, DotsKey(dots[0]), Skipped([])), With(e, DotsKey(dots[0]), Skipped([])), vars);
    }
  }

  /** A match depends on what was captured for the matcher's own metavariables only. */
  lemma {:induction false} MatchAgrees(m: Matcher, got: Value, d: Env, e: Env, vars: iset<string>)
    requires Agree(d, e, vars) && forall x | x in VarsM(m) :: x in vars
    ensures Match(m, got, d).Some? <==> Match(m, got, e).Some?
    ensures Match(m, got, d).Some? ==> Agree(Match(m, got, d).value, Match(m, got, e).value, vars)
    decreases got, if Closed(m) then 0 else 1
  {
    hide Agree;
    match m
    case PtrM(m1) => if got.Ptr? { MatchAgrees(m1, got.elem, d, e, vars); }
    case IfaceM(m1) => if got.Iface? { MatchAgrees(m1, got.elem, d, e, vars); }
    case SliceM(items) => if got.Slice? && |items| == |got.items| { PrefixAgrees(items, got.items, d, e, vars, 0); }
    case StructM(_, fields) =>
      if got.Struct? && |fields| == |got.fields| { PrefixAgrees(fields, got.fields, d, e, vars, 0); }
    case SliceDotsM(sections, dots) =>
      if |sections| == |dots| + 1 {
        if got.Slice? { ElidedAgrees(sections, dots, got.items, d, e, vars); } else { NothingAgrees(dots, d, e, vars); }
      }
    case ForDotsM(pos, body) =>
      if got.Ptr? && got.elem.Struct? && BodyIndex(got.elem.t).Some?
         && BodyIndex(got.elem.t).value < |got.elem.fields|
      {
        var idx := BodyIndex(got.elem.t).value;
        var around := Around(got.elem.t, idx, OthersOf(got.elem.fields, idx));
        AgreeWith(d, e, vars, ForKey(pos), around, around);
        MatchAgrees(body, got.elem.fields[idx], With(d, ForKey(pos), around), With(e, ForKey(pos), around), vars);
      }
    case PosM(p) => AgreeOnPos(d, e, vars, p, got);
    case MetavarM(name, _) => AgreeOnVariable(m, got, d, e, vars);
    case _ =>
  }

  lemma {:induction false} PrefixAgrees(want: seq<Matcher>, got: seq<Value>, d: Env, e: Env, vars: iset<string>, idx: nat)
    requires idx <= |got| && Agree(d, e, vars) && forall x | x in VarsAllM(want) :: x in vars
    ensures MatchPrefix(want, got, d, idx).Some? <==> MatchPrefix(want, got, e, idx).Some?
    ensures MatchPrefix(want, got, d, idx).Some? ==>
      Agree(MatchPrefix(want, got, d, idx).value, MatchPrefix(want, got, e, idx).value, vars)
    decreases got, 0, |want|
  {
    hide Agree;
    if want != [] && idx < |got| {
      MatchAgrees(want[0], got[idx], d, e, vars);
      if Match(want[0], got[idx], d).Some? {
        PrefixAgrees(want[1..], got, Match(want[0], got[idx], d).value, Match(want[0], got[idx], e).value, vars, idx + 1);
      }
    }
  }

  lemma {:induction false} SectionAgrees(
      pos: Pos, want: seq<Matcher>, got: seq<Value>, d: Env, e: Env, vars: iset<string>, idx: nat, i: nat)
    requires idx <= i <= |got| && Agree(d, e, vars) && forall x | x in VarsAllM(want) :: x in vars
    ensures var (r, r') := (FindSection(pos, want, got, d, idx, i), FindSection(pos, want, got, e, idx, i));
      && (r.Some? <==> r'.Some?)
      && (r.Some? ==> r.value.0 == r'.value.0 && Agree(r.value.1, r'.value.1, vars))
    decreases got, 1, |got| - i
  {
    hide Agree;
    AgreeWith(d, e, vars, DotsKey(pos), Skipped(got[idx..i]), Skipped(got[idx..i]));
    AgreeWith(d, e, vars, DotsKey(pos), Skipped(got[idx..]), Skipped(got[idx..]));
    if want != [] && i < |got| {
      var run := Skipped(got[idx..i]);
      PrefixAgrees(want, got, With(d, DotsKey(pos), run), With(e, DotsKey(pos), run), vars, i);
      SectionAgrees(pos, want, got, d, e, vars, idx, i + 1);
    }
  }

  lemma {:induction false} SectionsAgree(
      sections: seq<Section<Matcher>>, dots: seq<Pos>, got: seq<Value>, d: Env, e: Env, vars: iset<string>, idx: nat)
    requires |sections| == |dots| && idx <= |got| && Agree(d, e, vars) && forall x | x in VarsSecsM(sections) :: x in vars
    ensures var (r, r') := (FindSections(sections, dots, got, d, idx), FindSections(sections, dots, got, e, idx));
      && (r.Some? <==> r'.Some?)
      && (r.Some? ==> r.value.0 == r'.value.0 && Agree(r.value.1, r'.value.1, vars))
    decreases got, 2, |sections|
  {
    hide Agree;
    if sections != [] {
      SectionAgrees(dots[0], sections[0].items, got, d, e, vars, idx, idx);
      var r := FindSection(dots[0], sections[0].items, got, d, idx, idx);
      var r' := FindSection(dots[0], sections[0].items, got, e, idx, idx);
      if r.Some? {
        SectionsAgree(sections[1..], dots[1..], got, r.value.1, r'.value.1, vars, r.value.0);
      }
    }
  }

  lemma {:induction false} ElidedAgrees(
      sections: seq<Section<Matcher>>, dots: seq<Pos>, got: seq<Value>, d: Env, e: Env, vars: iset<string>)
    requires |sections| == |dots| + 1 && Agree(d, e, vars) && forall x | x in VarsSecsM(sections) :: x in vars
    ensures MatchElided(sections, dots, got, d).Some? <==> MatchElided(sections, dots, got, e).Some?
    ensures MatchElided(sections, dots, got, d).Some? ==>
      Agree(MatchElided(sections, dots, got, d).value, MatchElided(sections, dots, got, e).value, vars)
    decreases got, 3
  {
    hide Agree;
    PrefixAgrees(sections[0].items, got, d, e, vars, 0);
    if MatchPrefix(sections[0].items, got, d, 0).Some? {
      SectionsAgree(sections[1..], dots, got, MatchPrefix(sections[0].items, got, d, 0).value,
                    MatchPrefix(sections[0].items, got, e, 0).value, vars, |sections[0].items|);
    }
  }

  // ---------------------------------------------------------- where sections lie

  /** The sections match at the given starts, in order and without overlap, each with the captures of those before it. */
  ghost predicate Placed(sections: seq<Section<Matcher>>, got: seq<Value>, idx: nat, starts: seq<nat>, d: Env) {
    |starts| == |sections| &&
    (sections != [] ==>
      && idx <= starts[0] <= |got|
      && MatchPrefix(sections[0].items, got, d, starts[0]).Some?
      && Placed(sections[1..], got, starts[0] + |sections[0].items|, starts[1..],
                MatchPrefix(sections[0].items, got, d, starts[0]).value))
  }

  ghost predicate Placeable(sections: seq<Section<Matcher>>, got: seq<Value>, idx: nat, d: Env) {
    exists starts :: Placed(sections, got, idx, starts, d)
  }

  function End(sections: seq<Section<Matcher>>, idx: nat, starts: seq<nat>): nat
    requires |starts| == |sections|
  {
    if sections == [] then idx else starts[|starts| - 1] + |sections[|sections| - 1].items|
  }

  /** Every placement of the sections ends at index e. */
  ghost predicate OnlyEndsAt(sections: seq<Section<Matcher>>, got: seq<Value>, idx: nat, d: Env, e: nat) {
    forall starts | Placed(sections, got, idx, starts, d) :: End(sections, idx, starts) == e
  }

  lemma {:induction false} EndTail(sections: seq<Section<Matcher>>, idx: nat, starts: seq<nat>)
    requires |starts| == |sections| > 0
    ensures End(sections, idx, starts) == End(sections[1..], starts[0] + |sections[0].items|, starts[1..])
  {
  }

  /** A placement stays one when the search may begin earlier or with other captures that do not matter. */
  lemma {:induction false} PlacedAgain(
      sections: seq<Section<Matcher>>, got: seq<Value>, idx: nat, idx': nat, starts: seq<nat>, d: Env, e: Env, vars: iset<string>)
    requires Placed(sections, got, idx, starts, d) && idx' <= idx
    requires Agree(d, e, vars) && forall x | x in VarsSecsM(sections) :: x in vars
    ensures Placed(sections, got, idx', starts, e)
    decreases |sections|
  {
    if sections != [] {
      var want, next := sections[0].items, starts[0] + |sections[0].items|;
      PrefixAgrees(want, got, d, e, vars, starts[0]);
      PlacedAgain(sections[1..], got, next, next, starts[1..], MatchPrefix(want, got, d, starts[0]).value,
                  MatchPrefix(want, got, e, starts[0]).value, vars);
    }
  }

  lemma {:induction false} RunsCaptureNothing(d: Env, pos: Pos, run: seq<Value>)
    ensures Agree(With(d, DotsKey(pos), Skipped(run)), d, ALL_NAMES)
  {
  }

  /** findSection gives the least place at or behind i, with the captures made there. */
  lemma {:induction false} FindsLeast(pos: Pos, want: seq<Matcher>, got: seq<Value>, d: Env, idx: nat, i: nat)
    requires idx <= i <= |got| && want != []
    ensures var r := FindSection(pos, want, got, d, idx, i);
      if r.None? then forall j | i <= j <= |got| :: MatchPrefix(want, got, d, j).None?
      else
        && r.value.0 - |want| >= i && MatchPrefix(want, got, d, r.value.0 - |want|).Some?
        && Agree(r.value.1, MatchPrefix(want, got, d, r.value.0 - |want|).value, ALL_NAMES)
        && forall j | i <= j < r.value.0 - |want| :: MatchPrefix(want, got, d, j).None?
    decreases |got| - i
  {
    hide Agree;
    if i < |got| {
      var d1 := With(d, DotsKey(pos), Skipped(got[idx..i]));
      assert Agree(d1, d, ALL_NAMES) by { RunsCaptureNothing(d, pos, got[idx..i]); }
      PrefixAgrees(want, got, d1, d, ALL_NAMES, i);
      FindsLeast(pos, want, got, d, idx, i + 1);
    }
  }

  ghost predicate NoneEmpty(sections: seq<Section<Matcher>>) {
    forall k | 0 <= k < |sections| :: sections[k].items != []
  }

  /**
   * No two of the sections share a metavariable, but for those that are bound before the first of them is searched for.
   * It can be told from the pattern and the names bound so far.
   */
  ghost predicate Independent(sections: seq<Section<Matcher>>, d: Env) {
    forall i, j, x | 0 <= i < j < |sections| && x in VarsAllM(sections[i].items) && x in VarsAllM(sections[j].items) ::
      Bound(d, x).Some?
  }

  lemma {:induction false} SectionVars(sections: seq<Section<Matcher>>, x: string)
    ensures x in VarsSecsM(sections) <==> exists i | 0 <= i < |sections| :: x in VarsAllM(sections[i].items)
  {
    if sections != [] {
      SectionVars(sections[1..], x);
      assert forall i | 0 < i < |sections| :: sections[i] == sections[1..][i - 1];
      if i :| 0 <= i < |sections[1..]| && x in VarsAllM(sections[1..][i].items) {
        assert x in VarsAllM(sections[i + 1].items);
      }
    }
  }

  /** A first section that shares nothing unbound with the others captures for them the same wherever it matches. */
  lemma {:induction false} FirstCapturesAlike(
      sections: seq<Section<Matcher>>, got: seq<Value>, d: Env, i: nat, j: nat)
    requires sections != [] && Independent(sections, d) && i <= |got| && j <= |got|
    requires MatchPrefix(sections[0].items, got, d, i).Some? && MatchPrefix(sections[0].items, got, d, j).Some?
    ensures var (d1, d2) := (MatchPrefix(sections[0].items, got, d, i).value, MatchPrefix(sections[0].items, got, d, j).value);
      && Agree(d1, d2, (iset x | x in VarsSecsM(sections[1..]))) && Independent(sections[1..], d1)
  {
    var want, rest := sections[0].items, sections[1..];
    var d1, d2 := MatchPrefix(want, got, d, i).value, MatchPrefix(want, got, d, j).value;
    forall x | x in VarsSecsM(rest) ensures Bound(d1, x) == Bound(d2, x) {
      SectionVars(rest, x);
      var k :| 0 <= k < |rest| && x in VarsAllM(rest[k].items);
      assert sections[k + 1] == rest[k];
      assert x in VarsAllM(want) ==> Bound(d, x).Some?;
      PrefixKeeps(want, got, d, i, MetaKey(x));
      PrefixKeeps(want, got, d, j, MetaKey(x));
    }
    forall k, l, x | 0 <= k < l < |rest| && x in VarsAllM(rest[k].items) && x in VarsAllM(rest[l].items)
      ensures Bound(d1, x).Some?
    {
      assert x in VarsAllM(sections[k + 1].items) && x in VarsAllM(sections[l + 1].items) && Bound(d, x).Some?;
      PrefixKeeps(want, got, d, i, MetaKey(x));
    }
  }

  lemma {:induction false} FoundAgrees(rest: seq<Section<Matcher>>, d1: Env, here: Env, there: Env, vars: iset<string>)
    requires Agree(d1, here, ALL_NAMES) && Agree(here, there, vars) && Independent(rest, here)
    ensures Agree(there, d1, vars) && Independent(rest, d1)
  {
    forall x ensures Bound(d1, x) == Bound(here, x) { assert x in ALL_NAMES; }
  }

  /**
   * The search succeeds whenever independent sections can be placed at all, and it ends as early as any placement does.
   */
  lemma {:induction false} LeftmostIsComplete(
      sections: seq<Section<Matcher>>, dots: seq<Pos>, got: seq<Value>, d: Env, idx: nat, starts: seq<nat>)
    requires |sections| == |dots| && idx <= |got| && NoneEmpty(sections) && Independent(sections, d)
    requires Placed(sections, got, idx, starts, d)
    ensures FindSections(sections, dots, got, d, idx).Some?
    ensures FindSections(sections, dots, got, d, idx).value.0 <= End(sections, idx, starts)
    decreases |sections|
  {
    hide Agree, Independent, MatchPrefix, FindSection;
    if sections != [] {
      var want, rest := sections[0].items, sections[1..];
      FindsLeast(dots[0], want, got, d, idx, idx);
      var (idx1, d1) := FindSection(dots[0], want, got, d, idx, idx).value;
      var here, there := MatchPrefix(want, got, d, idx1 - |want|).value, MatchPrefix(want, got, d, starts[0]).value;
      var vars := iset x | x in VarsSecsM(rest);
      FirstCapturesAlike(sections, got, d, idx1 - |want|, starts[0]);
      FoundAgrees(rest, d1, here, there, vars);
      PlacedAgain(rest, got, starts[0] + |want|, idx1, starts[1..], there, d1, vars);
      LeftmostIsComplete(rest, dots[1..], got, d1, idx1, starts[1..]);
      EndTail(sections, idx, starts);
    }
  }

  /** What the search finds is a placement, whether the sections are independent or not. */
  lemma {:induction false} LeftmostIsSound(
      sections: seq<Section<Matcher>>, dots: seq<Pos>, got: seq<Value>, d: Env, idx: nat)
    returns (starts: seq<nat>)
    requires |sections| == |dots| && idx <= |got| && NoneEmpty(sections)
    requires FindSections(sections, dots, got, d, idx).Some?
    ensures Placed(sections, got, idx, starts, d)
    ensures End(sections, idx, starts) == FindSections(sections, dots, got, d, idx).value.0
    decreases |sections|
  {
    hide Agree, MatchPrefix, FindSection;
    if sections == [] {
      starts := [];
    } else {
      var want, rest := sections[0].items, sections[1..];
      FindsLeast(dots[0], want, got, d, idx, idx);
      var (idx1, d1) := FindSection(dots[0], want, got, d, idx, idx).value;
      var here := MatchPrefix(want, got, d, idx1 - |want|).value;
      var later := LeftmostIsSound(rest, dots[1..], got, d1, idx1);
      PlacedAgain(rest, got, idx1, idx1, later, d1, here, ALL_NAMES);
      starts := [idx1 - |want|] + later;
      assert starts[1..] == later;
      EndTail(sections, idx, starts);
    }
  }

  ghost predicate AllEmpty(sections: seq<Section<Matcher>>) {
    forall k | 0 <= k < |sections| :: sections[k].items == []
  }

  /** Of a run of empty sections the first one takes everything, so nothing but further empty ones may follow. */
  lemma {:induction false} DoubledDotsTakeAll(
      sections: seq<Section<Matcher>>, dots: seq<Pos>, got: seq<Value>, d: Env, idx: nat)
    requires |sections| == |dots| > 0 && idx <= |got| && sections[0].items == []
    ensures FindSections(sections, dots, got, d, idx).Some? <==> AllEmpty(sections)
    ensures AllEmpty(sections) ==> FindSections(sections, dots, got, d, idx).value.0 == |got|
    decreases |sections|
  {
    var d1 := With(d, DotsKey(dots[0]), Skipped(got[idx..]));
    var rest := sections[1..];
    assert forall k | 0 < k < |sections| :: sections[k] == rest[k - 1];
    if rest != [] {
      if rest[0].items == [] {
        DoubledDotsTakeAll(rest, dots[1..], got, d1, |got|);
      } else {
        assert FindSection(dots[1], rest[0].items, got, d1, |got|, |got|).None?;
        assert sections[1].items != [];
      }
    }
  }

  /** The index of the first empty section, or the number of sections. */
  function FirstEmpty(sections: seq<Section<Matcher>>): (k: nat)
    ensures k <= |sections|
    ensures k < |sections| ==> sections[k].items == []
    ensures forall i | 0 <= i < k :: sections[i].items != []
  {
    if sections == [] || sections[0].items == [] then 0 else 1 + FirstEmpty(sections[1..])
  }

  lemma {:induction false} FindSectionsInTwo(
      a: seq<Section<Matcher>>, b: seq<Section<Matcher>>, dots: seq<Pos>, got: seq<Value>, d: Env, idx: nat)
    requires |dots| == |a| + |b| && idx <= |got|
    ensures FindSections(a + b, dots, got, d, idx) ==
      match FindSections(a, dots[..|a|], got, d, idx)
      case None => None
      case Some((idx1, d1)) => FindSections(b, dots[|a|..], got, d1, idx1)
    decreases |a|
  {
    if a == [] {
      assert a + b == b && dots[0..] == dots;
    } else {
      assert (a + b)[1..] == a[1..] + b;
      assert dots[..|a|][1..] == dots[1..][..|a[1..]|] && dots[1..][|a[1..]|..] == dots[|a|..];
      var r := FindSection(dots[0], a[0].items, got, d, idx, idx);
      if r.Some? {
        FindSectionsInTwo(a[1..], b, dots[1..], got, r.value.1, r.value.0);
      }
    }
  }

  lemma {:induction false} NoneLeft(got: seq<Value>, b: seq<Section<Matcher>>, r: Option<(nat, Env)>)
    ensures b == [] ==> AllEmpty(b)
    ensures b == [] && r.Some? && r.value.0 <= |got| ==> FindSections(b, [], got, r.value.1, r.value.0) == r
  {
  }

  lemma {:induction false} PlacedInside(
      sections: seq<Section<Matcher>>, got: seq<Value>, idx: nat, starts: seq<nat>, d: Env)
    requires Placed(sections, got, idx, starts, d) && idx <= |got|
    ensures End(sections, idx, starts) <= |got|
    decreases |sections|
  {
    if sections != [] {
      EndTail(sections, idx, starts);
      PlacedInside(sections[1..], got, starts[0] + |sections[0].items|, starts[1..],
                   MatchPrefix(sections[0].items, got, d, starts[0]).value);
    }
  }

  /**
   * The search behind the first section. Up to the first empty section, that is, up to two `...`s side by side or a `...` at
   * the end, the sections must have a placement; from there on all must be empty.
   */
  lemma {:induction false} SearchFindsPlacements(
      sections: seq<Section<Matcher>>, dots: seq<Pos>, got: seq<Value>, d: Env, idx: nat)
    requires |sections| == |dots| && idx <= |got| && Independent(sections[..FirstEmpty(sections)], d)
    ensures var (r, k) := (FindSections(sections, dots, got, d, idx), FirstEmpty(sections));
      && (r.Some? <==> Placeable(sections[..k], got, idx, d) && AllEmpty(sections[k..]))
      && (r.Some? && k < |sections| ==> r.value.0 == |got|)
      && (r.Some? && k == |sections| ==> (r.value.0 == |got| <==> OnlyEndsAt(sections, got, idx, d, |got|)))
  {
    hide Independent, MatchPrefix, FindSections, FindSection, End, AllEmpty;
    var k := FirstEmpty(sections);
    var a, b := sections[..k], sections[k..];
    assert a + b == sections && NoneEmpty(a);
    FindSectionsInTwo(a, b, dots, got, d, idx);
    var r := FindSections(a, dots[..k], got, d, idx);
    forall starts | Placed(a, got, idx, starts, d)
      ensures r.Some? && r.value.0 <= End(a, idx, starts) <= |got|
    {
      LeftmostIsComplete(a, dots[..k], got, d, idx, starts);
      PlacedInside(a, got, idx, starts, d);
    }
    assert r.None? ==> !Placeable(a, got, idx, d);
    if r.Some? {
      var starts := LeftmostIsSound(a, dots[..k], got, d, idx);
      assert Placeable(a, got, idx, d);
      if b != [] {
        DoubledDotsTakeAll(b, dots[k..], got, r.value.1, r.value.0);
      } else {
        assert dots[k..] == [] && a == sections;
        NoneLeft(got, b, r);
        assert OnlyEndsAt(a, got, idx, d, |got|) ==> r.value.0 == |got|;
        assert r.value.0 == |got| ==> OnlyEndsAt(a, got, idx, d, |got|);
      }
    }
  }

  /** The same condition for a whole list: shared metavariables occur before the first `...` or are bound already. */
  ghost predicate IndependentBehind(first: seq<Matcher>, sections: seq<Section<Matcher>>, d: Env) {
    forall i, j, x | 0 <= i < j < |sections| && x in VarsAllM(sections[i].items) && x in VarsAllM(sections[j].items) ::
      x in VarsAllM(first) || Bound(d, x).Some?
  }

  lemma {:induction false} FirstMakesIndependent(
      first: seq<Matcher>, sections: seq<Section<Matcher>>, got: seq<Value>, d: Env)
    requires IndependentBehind(first, sections, d) && MatchPrefix(first, got, d, 0).Some?
    ensures Independent(sections, MatchPrefix(first, got, d, 0).value)
  {
    var d1 := MatchPrefix(first, got, d, 0).value;
    forall i, j, x | 0 <= i < j < |sections| && x in VarsAllM(sections[i].items) && x in VarsAllM(sections[j].items)
      ensures Bound(d1, x).Some?
    {
      if x in VarsAllM(first) { PrefixBinds(first, got, d, 0, x); } else { PrefixKeeps(first, got, d, 0, MetaKey(x)); }
    }
  }

  /** The first section lies at the start of the list and the others have a placement behind it. */
  ghost predicate PlaceableBehind(first: seq<Matcher>, sections: seq<Section<Matcher>>, got: seq<Value>, d: Env) {
    MatchPrefix(first, got, d, 0).Some? && Placeable(sections, got, |first|, MatchPrefix(first, got, d, 0).value)
  }

  /**
   * When a list pattern matches, wherever its `...`s stand: exactly when its first section lies at the start of the target,
   * the others up to the first empty one have a placement behind it, and all from there on are empty; without an empty
   * section every placement must also reach the end of the target, as the search takes the earliest one.
   */
  lemma {:induction false} ElisionIsPlacement(
      first: seq<Matcher>, rest: seq<Section<Matcher>>, dots: seq<Pos>, got: seq<Value>, d: Env)
    requires |dots| == |rest| && IndependentBehind(first, rest[..FirstEmpty(rest)], d)
    ensures var k := FirstEmpty(rest);
      MatchElided([Section(first)] + rest, dots, got, d).Some? <==>
      && PlaceableBehind(first, rest[..k], got, d)
      && AllEmpty(rest[k..])
      && (k == |rest| ==> OnlyEndsAt(rest, got, |first|, MatchPrefix(first, got, d, 0).value, |got|))
  {
    hide IndependentBehind, Independent, Placeable, OnlyEndsAt, MatchPrefix, FindSections, AllEmpty;
    var sections := [Section(first)] + rest;
    assert sections[0] == Section(first) && sections[1..] == rest;
    if MatchPrefix(first, got, d, 0).Some? {
      FirstMakesIndependent(first, rest[..FirstEmpty(rest)], got, d);
      SearchFindsPlacements(rest, dots, got, MatchPrefix(first, got, d, 0).value, |first|);
    }
  }

  lemma {:induction false} FirstEmptyIs(sections: seq<Section<Matcher>>, k: nat)
    requires k <= |sections| && NoneEmpty(sections[..k]) && (k < |sections| ==> sections[k].items == [])
    ensures FirstEmpty(sections) == k
  {
    assert forall i | 0 <= i < k :: sections[..k][i].items != [] && sections[..k][i] == sections[i];
  }

  /**
   * A pattern list that ends in `...` and has no two `...` side by side matches exactly when its first section lies at
   * the start of the target and the others lie behind it, in order and without overlap.
   */
  lemma {:induction false} ElisionIsComplete(
      first: seq<Matcher>, middle: seq<Section<Matcher>>, dots: seq<Pos>, got: seq<Value>, d: Env)
    requires |dots| == |middle| + 1 && NoneEmpty(middle) && IndependentBehind(first, middle, d)
    ensures MatchElided([Section(first)] + middle + [Section([])], dots, got, d).Some? <==>
      PlaceableBehind(first, middle, got, d)
  {
    hide PlaceableBehind, IndependentBehind, OnlyEndsAt, MatchElided;
    var rest := middle + [Section([])];
    FirstEmptyIs(rest, |middle|);
    assert rest[..|middle|] == middle && rest[|middle|..] == [Section([])];
    assert [Section(first)] + middle + [Section([])] == [Section(first)] + rest;
    ElisionIsPlacement(first, rest, dots, got, d);
  }

  /**
   * A pattern list that does not end in `...` matches exactly when its sections can be placed and every way of placing
   * them reaches the end of the target.
   */
  lemma {:induction false} ElisionWithoutTrailingDots(
      first: seq<Matcher>, rest: seq<Section<Matcher>>, dots: seq<Pos>, got: seq<Value>, d: Env)
    requires |dots| == |rest| && NoneEmpty(rest) && IndependentBehind(first, rest, d)
    ensures MatchElided([Section(first)] + rest, dots, got, d).Some? <==>
      && PlaceableBehind(first, rest, got, d)
      && OnlyEndsAt(rest, got, |first|, MatchPrefix(first, got, d, 0).value, |got|)
  {
    hide PlaceableBehind, IndependentBehind, OnlyEndsAt, MatchElided;
    assert rest[..|rest|] == rest;
    FirstEmptyIs(rest, |rest|);
    ElisionIsPlacement(first, rest, dots, got, d);
  }

  // ------------------------------------------------------------ the price of leftmost search

  /** An identifier as an expression. */
  function Name(s: string): (v: Value)
    ensures v.Iface? && v.elem.Ptr? && v.elem.t == IDENT_PTR
  {
    Iface(EXPR, Ptr(IDENT_PTR, Struct(IDENT, [PosV(NoPos), Prim(STRING, Text(s)), Nil(OBJECT_PTR)])))
  }

  lemma {:induction false} NameIsPlain(s: string)
    ensures Plain(Name(s).elem) && Unify.Canonical(Name(s).elem)
  {
    var ident := Name(s).elem;
    assert WellTyped(ident.elem) && ident.elem.fields[1] == Prim(STRING, Text(s));
  }

  lemma {:induction false} SameName(a: string, b: string)
    ensures Eq(Name(a).elem, Name(b).elem) <==> a == b
  {
    var u, v := Name(a).elem, Name(b).elem;
    NameIsPlain(a);
    EqRefl(u);
    if Eq(u, v) {
      assert Eq(u.elem, v.elem);
      assert EqAll(u.elem.fields, v.elem.fields);
      assert Eq(u.elem.fields[1], v.elem.fields[1]);
    }
  }

  const ANY_NAME := IfaceM(MetavarM("x", ExprVar))

  /** A bound metavariable finds its own capture again, and no other name; an unbound one takes any name. */
  lemma {:induction false} NameMatches(b: string, d: Env)
    ensures Bound(d, "x").None? ==> Match(ANY_NAME, Name(b), d) == Some(With(d, MetaKey("x"), Captured(Name(b).elem)))
    ensures forall a :: Bound(d, "x") == Some(Name(a).elem) ==> Match(ANY_NAME, Name(b), d) == if a == b then Some(d) else None
  {
    forall a | Bound(d, "x") == Some(Name(a).elem)
      ensures Match(ANY_NAME, Name(b), d) == if a == b then Some(d) else None
    {
      NameIsPlain(a);
      NameIsPlain(b);
      SameName(a, b);
      hide Name, Eq, WellTyped, DotsFree;
      var u := Name(a).elem;
      ClosedWithoutMeta(u);
      Unify.CapturedCodeIsLiteral(u, Name(b).elem);
    }
  }

  lemma {:induction false} OneItem(m: Matcher, got: seq<Value>, d: Env, i: nat)
    requires i < |got|
    ensures MatchPrefix([m], got, d, i) == Match(m, got[i], d)
  {
    hide Match;
    assert [m][1..] == [];
  }

  lemma {:induction false} TwoPlaces(want: seq<Matcher>, middle: seq<Section<Matcher>>, got: seq<Value>)
    requires want == [ANY_NAME] && middle == [Section(want), Section(want)] && got == [Name("a"), Name("b"), Name("b")]
    ensures Placed(middle, got, 0, [1, 2], New)
  {
    hide Name, Match;
    var d1 := With(New, MetaKey("x"), Captured(Name("b").elem));
    NameMatches("b", New);
    NameMatches("b", d1);
    OneItem(ANY_NAME, got, New, 1);
    OneItem(ANY_NAME, got, d1, 2);
    assert middle[1..] == [Section(want)] && middle[1..][1..] == [] && [1, 2][1..] == [2] && [2][1..] == [];
    assert Placed(middle[1..][1..], got, 3, [], d1);
    assert Placed(middle[1..], got, 2, [2], d1);
  }

  lemma {:induction false} NotFound(want: seq<Matcher>, pos: Pos, got: seq<Value>, d: Env, i: nat)
    requires want == [ANY_NAME] && got == [Name("a"), Name("b"), Name("b")] && 1 <= i <= 3
    requires Bound(d, "x") == Some(Name("a").elem)
    ensures FindSection(pos, want, got, d, 1, i).None?
    decreases 3 - i
  {
    hide Name, Match;
    if i < 3 {
      var d1 := With(d, DotsKey(pos), Skipped(got[1..i]));
      assert Bound(d1, "x") == Bound(d, "x");
      NameMatches("b", d1);
      OneItem(ANY_NAME, got, d1, i);
      NotFound(want, pos, got, d, i + 1);
    }
  }

  /** The first x is bound to a, behind which no other a is found. */
  lemma {:induction false} FirstBindsA(want: seq<Matcher>, dots: seq<Pos>, got: seq<Value>)
    requires want == [ANY_NAME] && |dots| == 3 && got == [Name("a"), Name("b"), Name("b")]
    ensures FindSections([Section(want), Section(want), Section([])], dots, got, New, 0).None?
  {
    hide Name, Match;
    var all := [Section(want), Section(want), Section([])];
    var d0 := With(New, DotsKey(dots[0]), Skipped(got[0..0]));
    var d1 := With(d0, MetaKey("x"), Captured(Name("a").elem));
    assert Bound(d0, "x") == Bound(New, "x");
    NameMatches("a", d0);
    OneItem(ANY_NAME, got, d0, 0);
    assert MatchPrefix(want, got, d0, 0) == Some(d1);
    assert FindSection(dots[0], want, got, New, 0, 0) == Some((1, d1));
    NotFound(want, dots[1], got, d1, 1);
    assert all[1..][0] == Section(want) && dots[1..][0] == dots[1];
    assert FindSections(all[1..], dots[1..], got, d1, 1).None?;
  }

  /**
   * With metavariables the search is not complete: `..., x, ..., x, ...` does not match a, b, b, although its sections
   * match at the last two places.
   */
  lemma {:induction false} LeftmostDoesNotReconsider()
    ensures exists middle: seq<Section<Matcher>>, dots: seq<Pos>, got: seq<Value>, starts: seq<nat> ::
      && |dots| == |middle| + 1
      && MatchElided([Section([])] + middle + [Section([])], dots, got, New).None?
      && Placed(middle, got, 0, starts, New)
  {
    var want, got := [ANY_NAME], [Name("a"), Name("b"), Name("b")];
    var dots := [At(1, 1, 1), At(2, 1, 2), At(3, 1, 3)];
    var middle, all := [Section(want), Section(want)], [Section([]), Section(want), Section(want), Section([])];
    hide Name, Match, Placed, FindSections;
    assert all == [Section([])] + middle + [Section([])];
    TwoPlaces(want, middle, got);
    FirstBindsA(want, dots, got);
    assert all[1..] == [Section(want), Section(want), Section([])];
    assert MatchElided(all, dots, got, New).None?;
  }

  // ---------------------------------------------------------------- conservation

  /** runs[0] + pieces[0] + runs[1] + pieces[1] + ... */
  function WeaveFrom(runs: seq<seq<Value>>, pieces: seq<seq<Value>>): seq<Value>
    requires |runs| == |pieces|
  {
    if runs == [] then [] else runs[0] + pieces[0] + WeaveFrom(runs[1..], pieces[1..])
  }

  /** The pieces with the runs in the gaps between them. */
  function Weave(pieces: seq<seq<Value>>, runs: seq<seq<Value>>): seq<Value>
    requires |pieces| == |runs| + 1
  {
    pieces[0] + WeaveFrom(runs, pieces[1..])
  }

  /** What was recorded for each `...`. */
  function Runs(d: Env, dots: seq<Pos>): (runs: seq<seq<Value>>)
    ensures |runs| == |dots|
  {
    seq(|dots|, i requires 0 <= i < |dots| => Run(d, dots[i]))
  }

  ghost predicate Distinct(dots: seq<Pos>) {
    forall i, j | 0 <= i < j < |dots| :: dots[i] != dots[j]
  }

  /** The pieces have the lengths of the sections. */
  ghost predicate Sized<T>(pieces: seq<seq<Value>>, sections: seq<Section<T>>) {
    |pieces| == |sections| && forall k | 0 <= k < |pieces| :: |pieces[k]| == |sections[k].items|
  }

  /** A found section and the run before it, as recorded when the section has been matched. */
  lemma {:induction false} FoundBehindRun(pos: Pos, want: seq<Matcher>, got: seq<Value>, d: Env, idx: nat, i: nat)
    requires idx <= i <= |got| && pos !in DotsAllM(want)
    requires FindSection(pos, want, got, d, idx, i).Some?
    ensures var (end, d1) := FindSection(pos, want, got, d, idx, i).value;
      end - |want| >= i && Run(d1, pos) == got[idx..end - |want|]
    decreases |got| - i
  {
    if want != [] {
      var d1 := With(d, DotsKey(pos), Skipped(got[idx..i]));
      if MatchPrefix(want, got, d1, i).Some? {
        PrefixKeeps(want, got, d1, i, DotsKey(pos));
      } else {
        FoundBehindRun(pos, want, got, d, idx, i + 1);
      }
    }
  }

  lemma {:induction false} ThreeParts(got: seq<Value>, a: nat, b: nat, c: nat, e: nat)
    requires a <= b <= c <= e <= |got|
    ensures got[a..e] == got[a..b] + got[b..c] + got[c..e]
  {
  }

  lemma {:induction false} FirstIsApart(sections: seq<Section<Matcher>>, dots: seq<Pos>)
    requires |sections| == |dots| > 0 && Distinct(dots) && SetOf(dots) !! DotsSecsM(sections)
    ensures dots[0] !in DotsAllM(sections[0].items) && dots[0] !in DotsSecsM(sections[1..]) + SetOf(dots[1..])
    ensures Distinct(dots[1..]) && SetOf(dots[1..]) !! DotsSecsM(sections[1..])
  {
    hide DotsAllM;
    assert dots[0] in SetOf(dots) && SetOf(dots[1..]) <= SetOf(dots) && dots[0] !in SetOf(dots[1..]);
  }

  lemma {:induction false} FirstRun(d: Env, dots: seq<Pos>, piece: seq<Value>, pieces: seq<seq<Value>>)
    requires |dots| == |pieces| + 1
    ensures WeaveFrom(Runs(d, dots), [piece] + pieces) == Run(d, dots[0]) + piece + WeaveFrom(Runs(d, dots[1..]), pieces)
  {
    assert Runs(d, dots)[1..] == Runs(d, dots[1..]) && ([piece] + pieces)[1..] == pieces;
  }

  lemma {:induction false} SectionsPartition(
      sections: seq<Section<Matcher>>, dots: seq<Pos>, got: seq<Value>, d: Env, idx: nat)
    returns (pieces: seq<seq<Value>>)
    requires |sections| == |dots| && idx <= |got| && FindSections(sections, dots, got, d, idx).Some?
    requires Distinct(dots) && SetOf(dots) !! DotsSecsM(sections)
    ensures Sized(pieces, sections)
    ensures var (end, d1) := FindSections(sections, dots, got, d, idx).value;
      got[idx..end] == WeaveFrom(Runs(d1, dots), pieces)
    decreases |sections|
  {
    hide Match, MatchPrefix, FindSection, DotsAllM, Runs;
    if sections == [] {
      pieces := [];
    } else {
      hide WeaveFrom;
      FirstIsApart(sections, dots);
      hide DotsSecsM, SetOf;
      FoundBehindRun(dots[0], sections[0].items, got, d, idx, idx);
      var (idx1, d1) := FindSection(dots[0], sections[0].items, got, d, idx, idx).value;
      var rest := SectionsPartition(sections[1..], dots[1..], got, d1, idx1);
      var (end, d2) := FindSections(sections[1..], dots[1..], got, d1, idx1).value;
      SectionsKeep(sections[1..], dots[1..], got, d1, idx1, DotsKey(dots[0]));
      var start := idx1 - |sections[0].items|;
      pieces := [got[start..idx1]] + rest;
      ThreeParts(got, idx, start, idx1, end);
      FirstRun(d2, dots, got[start..idx1], rest);
    }
  }

  /** Sections and recorded runs, interleaved in pattern order, are the target list: nothing is lost or doubled. */
  lemma {:induction false} ElisionPartitionsTarget(sections: seq<Section<Matcher>>, dots: seq<Pos>, got: seq<Value>, d: Env)
    returns (pieces: seq<seq<Value>>)
    requires |sections| == |dots| + 1 && MatchElided(sections, dots, got, d).Some?
    requires Distinct(dots) && SetOf(dots) !! DotsSecsM(sections)
    ensures Sized(pieces, sections)
    ensures got == Weave(pieces, Runs(MatchElided(sections, dots, got, d).value, dots))
  {
    var n := |sections[0].items|;
    var d1 := MatchPrefix(sections[0].items, got, d, 0).value;
    var rest := SectionsPartition(sections[1..], dots, got, d1, n);
    pieces := [got[..n]] + rest;
    assert pieces[1..] == rest;
    assert got == got[..n] + got[n..|got|];
  }

  lemma {:induction false} AllReplaced(rs: seq<Replacer>, d: Env, assoc: Assoc, pos: Pos)
    requires ReplaceAll(rs, d, assoc, pos).Some?
    ensures |ReplaceAll(rs, d, assoc, pos).value| == |rs|
  {
    if rs != [] {
      AllReplaced(rs[1..], d, assoc, pos);
    }
  }

  function Partners(assoc: Assoc, dots: seq<Pos>): (r: seq<Pos>)
    ensures |r| == |dots|
  {
    seq(|dots|, i requires 0 <= i < |dots| => Partner(assoc, dots[i]))
  }

  lemma {:induction false} OnePiece(piece: seq<Value>)
    ensures Weave([piece], []) == piece
  {
  }

  lemma {:induction false} WeaveStep(piece: seq<Value>, pieces: seq<seq<Value>>, runs: seq<seq<Value>>)
    requires |pieces| == |runs| > 0
    ensures Weave([piece] + pieces, runs) == piece + runs[0] + Weave(pieces, runs[1..])
  {
    assert ([piece] + pieces)[1..] == pieces;
  }

  /** The rebuilt list is the replacer's own sections, interleaved with the runs recorded for the associated `...`s. */
  lemma {:induction false} ReplacementWeaves(
      sections: seq<Section<Replacer>>, dots: seq<Pos>, d: Env, assoc: Assoc, pos: Pos)
    returns (pieces: seq<seq<Value>>)
    requires |sections| == |dots| + 1 && ReplaceSections(sections, dots, d, assoc, pos).Some?
    ensures Sized(pieces, sections)
    ensures forall k | 0 <= k < |pieces| :: ReplaceAll(sections[k].items, d, assoc, pos) == Some(pieces[k])
    ensures ReplaceSections(sections, dots, d, assoc, pos).value == Weave(pieces, Runs(d, Partners(assoc, dots)))
    decreases |sections|
  {
    hide Replace, ReplaceAll, Weave, Run;
    AllReplaced(sections[0].items, d, assoc, pos);
    var first := ReplaceAll(sections[0].items, d, assoc, pos).value;
    var runs := Runs(d, Partners(assoc, dots));
    if dots == [] {
      assert ReplaceSections(sections[1..], [], d, assoc, pos) == Some([]);
      pieces := [first];
      assert Weave(pieces, runs) == first by { OnePiece(first); }
    } else {
      var rest := ReplacementWeaves(sections[1..], dots[1..], d, assoc, pos);
      pieces := [first] + rest;
      assert pieces[1..] == rest && runs[1..] == Runs(d, Partners(assoc, dots[1..]));
      WeaveStep(first, rest, runs);
    }
  }
}
