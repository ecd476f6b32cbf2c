/** Where the tokens of rewritten code stand: at the tokens they continue. */
module Positions {
  import opened Wrappers
  import opened Data
  import opened Tree
  import opened Engine
  import opened Capture
  import ConnectDots
  import NoOp
  import Unify

  /** The position that a path of indexes leads to, through pointers and interfaces, but not into metavariables. */
  function PosOn(meta: Meta, p: Value, path: seq<nat>): Option<Pos>
    decreases p
  {
    if Cut(TypeOf(p)) then None
    else match p
      case PosV(pos) => if path == [] then Some(pos) else None
      case Ptr(_, e) => if Unify.IsVariable(meta, p) then None else PosOn(meta, e, path)
      case Iface(_, e) => PosOn(meta, e, path)
      case Slice(_, items) => if path != [] && path[0] < |items| then PosOn(meta, items[path[0]], path[1..]) else None
      case Struct(_, fields) => if path != [] && path[0] < |fields| then PosOn(meta, fields[path[0]], path[1..]) else None
      case _ => None
  }

  /** Some position of the tree stands at this line and column. */
  ghost predicate HasPlace(meta: Meta, p: Value, place: Pos) {
    exists path, a :: PosOn(meta, p, path) == Some(a) && ConnectDots.SamePlace(a, place)
  }

  /** No two positions stand at the same place, one of them valid. */
  ghost predicate PlacesDiffer(meta: Meta, p: Value) {
    forall path, path', a, a' | PosOn(meta, p, path) == Some(a) && PosOn(meta, p, path') == Some(a') && path != path' ::
      a.IsValid() ==> !ConnectDots.SamePlace(a, a')
  }

  function PlaceKey(pos: Pos): Key {
    PosKey(pos.Line(), pos.Column())
  }

  // ------------------------------------------------------------------ one level of a tree

  lemma {:induction false} PlaceBehind(meta: Meta, p: Value, place: Pos)
    requires !Cut(TypeOf(p)) && ((p.Ptr? && !Unify.IsVariable(meta, p)) || p.Iface?)
    ensures HasPlace(meta, p.elem, place) ==> HasPlace(meta, p, place)
  {
    if HasPlace(meta, p.elem, place) {
      var path, a :| PosOn(meta, p.elem, path) == Some(a) && ConnectDots.SamePlace(a, place);
      assert PosOn(meta, p, path) == Some(a);
    }
  }

  function ItemsOf(p: Value): seq<Value>
    requires p.Slice? || p.Struct?
  {
    if p.Slice? then p.items else p.fields
  }

  lemma {:induction false} PlaceOfItem(meta: Meta, p: Value, i: nat, place: Pos)
    requires !Cut(TypeOf(p)) && (p.Slice? || p.Struct?) && i < |ItemsOf(p)|
    ensures HasPlace(meta, ItemsOf(p)[i], place) ==> HasPlace(meta, p, place)
  {
    if HasPlace(meta, ItemsOf(p)[i], place) {
      var path, a :| PosOn(meta, ItemsOf(p)[i], path) == Some(a) && ConnectDots.SamePlace(a, place);
      assert ([i] + path)[1..] == path;
      assert PosOn(meta, p, [i] + path) == Some(a);
    }
  }

  lemma {:induction false} PlaceInside(meta: Meta, p: Value, place: Pos)
    requires !Cut(TypeOf(p)) && !HasPlace(meta, p, place)
    ensures p.Ptr? && !Unify.IsVariable(meta, p) ==> !HasPlace(meta, p.elem, place)
    ensures p.Iface? ==> !HasPlace(meta, p.elem, place)
    ensures p.Slice? ==> forall i | 0 <= i < |p.items| :: !HasPlace(meta, p.items[i], place)
    ensures p.Struct? ==> forall i | 0 <= i < |p.fields| :: !HasPlace(meta, p.fields[i], place)
  {
    hide HasPlace;
    if (p.Ptr? && !Unify.IsVariable(meta, p)) || p.Iface? { PlaceBehind(meta, p, place); }
    if p.Slice? || p.Struct? {
      var ps := ItemsOf(p);
      forall i | 0 <= i < |ps| ensures !HasPlace(meta, ps[i], place) { PlaceOfItem(meta, p, i, place); }
    }
  }

  /** What a path leads to in one item stands at none of the places of another. */
  lemma {:induction false} OthersElsewhere(meta: Meta, p: Value, path: seq<nat>, i: nat)
    requires !Cut(TypeOf(p)) && (p.Slice? || p.Struct?)
    requires PosOn(meta, p, path).Some? && PosOn(meta, p, path).value.IsValid() && i < |ItemsOf(p)| && i != path[0]
    ensures PlacesDiffer(meta, p) ==> !HasPlace(meta, ItemsOf(p)[i], PosOn(meta, p, path).value)
  {
    var place := PosOn(meta, p, path).value;
    if HasPlace(meta, ItemsOf(p)[i], place) {
      var more, a :| PosOn(meta, ItemsOf(p)[i], more) == Some(a) && ConnectDots.SamePlace(a, place);
      assert ([i] + more)[1..] == more && ([i] + more)[0] != path[0];
      assert PosOn(meta, p, [i] + more) == Some(a);
    }
  }

  lemma {:induction false} ItemPlacesDiffer(meta: Meta, p: Value, i: nat)
    requires !Cut(TypeOf(p)) && PlacesDiffer(meta, p) && (p.Slice? || p.Struct?) && i < |ItemsOf(p)|
    ensures PlacesDiffer(meta, ItemsOf(p)[i])
  {
    var ps := ItemsOf(p);
    forall path, path', a, a' |
      PosOn(meta, ps[i], path) == Some(a) && PosOn(meta, ps[i], path') == Some(a') && path != path' && a.IsValid()
      ensures !ConnectDots.SamePlace(a, a')
    {
      var (long, long') := ([i] + path, [i] + path');
      assert long[1..] == path && long'[1..] == path';
      assert PosOn(meta, p, long) == Some(a) && PosOn(meta, p, long') == Some(a');
    }
  }

  lemma {:induction false} PlacesDifferInside(meta: Meta, p: Value)
    requires !Cut(TypeOf(p)) && PlacesDiffer(meta, p)
    ensures p.Ptr? && !Unify.IsVariable(meta, p) ==> PlacesDiffer(meta, p.elem)
    ensures p.Iface? ==> PlacesDiffer(meta, p.elem)
    ensures p.Slice? ==> forall i | 0 <= i < |p.items| :: PlacesDiffer(meta, p.items[i])
    ensures p.Struct? ==> forall i | 0 <= i < |p.fields| :: PlacesDiffer(meta, p.fields[i])
  {
    if (p.Ptr? && !Unify.IsVariable(meta, p)) || p.Iface? {
      assert forall path :: PosOn(meta, p, path) == PosOn(meta, p.elem, path);
    }
    if p.Slice? || p.Struct? {
      var ps := ItemsOf(p);
      forall i | 0 <= i < |ps| ensures PlacesDiffer(meta, ps[i]) { ItemPlacesDiffer(meta, p, i); }
    }
  }

  // ------------------------------------------------------------------ what a match records

  lemma {:induction false} LeafElsewhere(meta: Meta, p: Value, v: Value, d: Env, place: Pos)
    requires Unify.IsLeaf(p) && Match(CompileM(meta, p), v, d).Some? && !HasPlace(meta, p, place)
    ensures Match(CompileM(meta, p), v, d).value.Value(PlaceKey(place)) == d.Value(PlaceKey(place))
  {
    if p.PosV? {
      assert PosOn(meta, p, []) == Some(p.pos);
    }
  }

  /** Matching records positions for the places of the pattern only. */
  lemma {:induction false} OtherPlacesKept(meta: Meta, p: Value, v: Value, d: Env, place: Pos)
    requires Plain(p) && Match(CompileM(meta, p), v, d).Some? && !HasPlace(meta, p, place)
    ensures Match(CompileM(meta, p), v, d).value.Value(PlaceKey(place)) == d.Value(PlaceKey(place))
    decreases p, 1
  {
    hide WellTyped, DotsFree, HasPlace, PlacesDiffer;
    PlainParts(p);
    if Unify.IsLeaf(p) {
      LeafElsewhere(meta, p, v, d, place);
    } else {
      PlaceInside(meta, p, place);
      Unify.PartsInPlace(p, p);
      match p
      case Ptr(_, e) =>
        if !Unify.IsVariable(meta, p) {
          Unify.MatchPtr(meta, p, v, d);
          OtherPlacesKept(meta, e, v.elem, d, place);
        } else {
          Unify.MatchVariable(meta, p, v, d);
        }
      case Iface(_, e) => Unify.MatchIface(meta, p, v, d); OtherPlacesKept(meta, e, v.elem, d, place);
      case Slice(_, items) =>
        Unify.MatchSlice(meta, p, v, d);
        if v.Slice? { OtherPlacesKeptAll(meta, items, v.items, d, 0, place); }
      case Struct(_, fields) =>
        Unify.MatchStruct(meta, p, v, d);
        OtherPlacesKeptAll(meta, fields, v.fields, d, 0, place);
    }
  }

  lemma {:induction false} OtherPlacesKeptAll(meta: Meta, ps: seq<Value>, got: seq<Value>, d: Env, idx: nat, place: Pos)
    requires PlainAll(ps) && idx <= |got| && MatchPrefix(CompileAllM(meta, ps), got, d, idx).Some?
    requires forall i | 0 <= i < |ps| :: !HasPlace(meta, ps[i], place)
    ensures MatchPrefix(CompileAllM(meta, ps), got, d, idx).value.Value(PlaceKey(place)) == d.Value(PlaceKey(place))
    decreases ps, 0
  {
    hide Plain, HasPlace, CompileM, Match;
    if ps != [] {
      assert CompileAllM(meta, ps)[1..] == CompileAllM(meta, ps[1..]);
      OtherPlacesKept(meta, ps[0], got[idx], d, place);
      OtherPlacesKeptAll(meta, ps[1..], got, Match(CompileM(meta, ps[0]), got[idx], d).value, idx + 1, place);
    }
  }

  /** The path leads to a valid position in v, which is recorded for the place of the one that it leads to in the pattern. */
  ghost predicate Recorded(meta: Meta, p: Value, path: seq<nat>, v: Value, d: Env) {
    PosOn(meta, p, path).Some? && PosOn(map[], v, path).Some? && PosOn(map[], v, path).value.IsValid() &&
    d.Value(PlaceKey(PosOn(meta, p, path).value)) == Some(Seen(PosOn(map[], v, path).value))
  }

  lemma {:induction false} IsNotCut(v: Value)
    requires WellTyped(v) && (IsSlice(v) || v.Iface?)
    ensures !Cut(TypeOf(v))
  {
  }

  /** A match records for each place of the pattern the position of the code that stands there. */
  lemma {:induction false} PositionsAreRecorded(meta: Meta, p: Value, v: Value, d: Env, path: seq<nat>)
    requires Plain(p) && Plain(v) && Unify.InPlace(p, v) && PlacesDiffer(meta, p) && Match(CompileM(meta, p), v, d).Some?
    requires PosOn(meta, p, path).Some? && PosOn(meta, p, path).value.IsValid()
    ensures Recorded(meta, p, path, v, Match(CompileM(meta, p), v, d).value)
    decreases p, 1
  {
    hide WellTyped, DotsFree, PlacesDiffer, Unify.InPlace;
    PlainParts(p);
    PlainParts(v);
    PlacesDifferInside(meta, p);
    Unify.PartsInPlace(p, v);
    match p
    case PosV(_) =>
    case Ptr(_, e) =>
      Unify.MatchPtr(meta, p, v, d);
      assert !Unify.IsVariable(map[], v);
      PositionsAreRecorded(meta, e, v.elem, d, path);
      assert !Cut(TypeOf(v));
    case Iface(_, e) =>
      Unify.MatchIface(meta, p, v, d);
      assert v.Iface? && !Cut(TypeOf(v)) by { IsNotCut(v); }
      PositionsAreRecorded(meta, e, v.elem, d, path);
    case Slice(_, items) =>
      Unify.MatchSlice(meta, p, v, d);
      forall i | 0 <= i < |items| && i != path[0] ensures !HasPlace(meta, items[i], PosOn(meta, p, path).value) {
        OthersElsewhere(meta, p, path, i);
      }
      assert v.Slice? && !Cut(TypeOf(v)) by { IsNotCut(v); }
      ItemPositionsAreRecorded(meta, items, v.items, d, 0, path[0], path[1..]);
    case Struct(_, fields) =>
      Unify.MatchStruct(meta, p, v, d);
      forall i | 0 <= i < |fields| && i != path[0] ensures !HasPlace(meta, fields[i], PosOn(meta, p, path).value) {
        OthersElsewhere(meta, p, path, i);
      }
      ItemPositionsAreRecorded(meta, fields, v.fields, d, 0, path[0], path[1..]);
  }

  lemma {:induction false} ItemPositionsAreRecorded(
      meta: Meta, ps: seq<Value>, got: seq<Value>, d: Env, idx: nat, k: nat, path: seq<nat>)
    requires PlainAll(ps) && PlainAll(got) && idx + |ps| <= |got| && Unify.InPlaceFrom(ps, got, idx)
    requires MatchPrefix(CompileAllM(meta, ps), got, d, idx).Some? && k < |ps|
    requires PlacesDiffer(meta, ps[k]) && PosOn(meta, ps[k], path).Some? && PosOn(meta, ps[k], path).value.IsValid()
    requires forall i | 0 <= i < |ps| && i != k :: !HasPlace(meta, ps[i], PosOn(meta, ps[k], path).value)
    ensures Recorded(meta, ps[k], path, got[idx + k], MatchPrefix(CompileAllM(meta, ps), got, d, idx).value)
    decreases ps, 0
  {
    hide Plain, HasPlace, PlacesDiffer, CompileM, Match, Unify.InPlace;
    assert CompileAllM(meta, ps)[1..] == CompileAllM(meta, ps[1..]);
    Unify.InPlaceTail(ps, got, idx);
    var d1 := Match(CompileM(meta, ps[0]), got[idx], d).value;
    if k == 0 {
      PositionsAreRecorded(meta, ps[0], got[idx], d, path);
      OtherPlacesKeptAll(meta, ps[1..], got, d1, idx + 1, PosOn(meta, ps[0], path).value);
    } else {
      ItemPositionsAreRecorded(meta, ps[1..], got, d1, idx + 1, k - 1, path);
    }
  }

  // ------------------------------------------------------------------ where the replacement stands

  /** The position that a replacement has where the plus side has position b. */
  function Standing(d: Env, b: Pos, region: Pos): Pos {
    if !b.IsValid() then b
    else
      match d.Value(PlaceKey(b))
      case Some(Seen(matched)) => if matched.IsValid() then matched else region
      case _ => region
  }

  lemma {:induction false} EachReplaced(rs: seq<Replacer>, d: Env, assoc: Assoc, pos: Pos, i: nat)
    requires ReplaceAll(rs, d, assoc, pos).Some? && i < |rs|
    ensures |ReplaceAll(rs, d, assoc, pos).value| == |rs|
    ensures Replace(rs[i], d, assoc, pos) == Some(ReplaceAll(rs, d, assoc, pos).value[i])
    decreases |rs|
  {
    hide Replace;
    if |rs| > 1 {
      EachReplaced(rs[1..], d, assoc, pos, if i > 0 then i - 1 else 0);
    } else {
      assert rs[1..] == [];
    }
  }

  lemma {:induction false} ReplacementStands(meta: Meta, q: Value, d: Env, assoc: Assoc, region: Pos, path: seq<nat>)
    requires Plain(q) && Replace(CompileR(meta, q), d, assoc, region).Some? && PosOn(meta, q, path).Some?
    ensures PosOn(map[], Replace(CompileR(meta, q), d, assoc, region).value, path) ==
      Some(Standing(d, PosOn(meta, q, path).value, region))
    decreases q
  {
    hide WellTyped, DotsFree;
    PlainParts(q);
    match q
    case PosV(_) =>
    case Ptr(_, e) =>
      assert CompileR(meta, q) == PtrR(q.t, CompileR(meta, e));
      ReplacementStands(meta, e, d, assoc, region, path);
    case Iface(_, e) => ReplacementStands(meta, e, d, assoc, region, path);
    case Slice(t, items) =>
      NoOp.OneSectionR(meta, items);
      var rs := CompileAllR(meta, items);
      assert CompileR(meta, q) == SliceR(t, rs);
      EachReplaced(rs, d, assoc, region, path[0]);
      ReplacementStands(meta, items[path[0]], d, assoc, region, path[1..]);
    case Struct(t, fields) =>
      var rs := CompileAllR(meta, fields);
      assert CompileR(meta, q) == StructR(t, rs);
      EachReplaced(rs, d, assoc, region, path[0]);
      ReplacementStands(meta, fields[path[0]], d, assoc, region, path[1..]);
  }

  // ------------------------------------------------------------------ both sides

  /** w has at this path the position that v has at that one. */
  ghost predicate SamePosition(w: Value, path: seq<nat>, v: Value, path': seq<nat>) {
    PosOn(map[], w, path).Some? && PosOn(map[], w, path) == PosOn(map[], v, path')
  }

  /**
   * Where the tokens of w stand, which replaces v: a token of the plus side that stands in the patch where one of the minus
   * side does, at the token of v that this one has matched; any other token, at the start of the region.
   */
  ghost predicate CarriesPositions(meta: Meta, minus: Value, plus: Value, v: Value, w: Value, region: Pos) {
    && (forall path, a, path', b |
          PosOn(meta, minus, path) == Some(a) && PosOn(meta, plus, path') == Some(b) && ConnectDots.SamePlace(a, b)
          && a.IsValid() && b.IsValid() :: SamePosition(w, path', v, path))
    && (forall path', b | PosOn(meta, plus, path') == Some(b) && b.IsValid() && !HasPlace(meta, minus, b) ::
          PosOn(map[], w, path') == Some(region))
    && forall path', b | PosOn(meta, plus, path') == Some(b) && !b.IsValid() :: PosOn(map[], w, path') == Some(b)
  }

  lemma {:induction false} StandsAtItsMatch(
      meta: Meta, minus: Value, plus: Value, v: Value, d: Env, assoc: Assoc, region: Pos, path: seq<nat>, path': seq<nat>)
    requires Plain(minus) && Plain(plus) && Plain(v) && Unify.InPlace(minus, v) && PlacesDiffer(meta, minus)
    requires Match(CompileM(meta, minus), v, New).Some? && NoOp.SameAnswers(Match(CompileM(meta, minus), v, New).value, d)
    requires Replace(CompileR(meta, plus), d, assoc, region).Some?
    requires PosOn(meta, minus, path).Some? && PosOn(meta, plus, path').Some?
    requires var (a, b) := (PosOn(meta, minus, path).value, PosOn(meta, plus, path').value);
      ConnectDots.SamePlace(a, b) && a.IsValid() && b.IsValid()
    ensures SamePosition(Replace(CompileR(meta, plus), d, assoc, region).value, path', v, path)
  {
    hide Plain, CompileM, Match, CompileR, Replace, PlacesDiffer, HasPlace, Unify.InPlace, PosOn;
    PositionsAreRecorded(meta, minus, v, New, path);
    ReplacementStands(meta, plus, d, assoc, region, path');
  }

  lemma {:induction false} StandsInRegion(
      meta: Meta, minus: Value, plus: Value, v: Value, d: Env, assoc: Assoc, region: Pos, path': seq<nat>)
    requires Plain(minus) && Plain(plus)
    requires Match(CompileM(meta, minus), v, New).Some? && NoOp.SameAnswers(Match(CompileM(meta, minus), v, New).value, d)
    requires Replace(CompileR(meta, plus), d, assoc, region).Some? && PosOn(meta, plus, path').Some?
    requires var b := PosOn(meta, plus, path').value; b.IsValid() && !HasPlace(meta, minus, b)
    ensures PosOn(map[], Replace(CompileR(meta, plus), d, assoc, region).value, path') == Some(region)
  {
    hide Plain, CompileM, Match, CompileR, Replace, HasPlace, PosOn;
    OtherPlacesKept(meta, minus, v, New, PosOn(meta, plus, path').value);
    ReplacementStands(meta, plus, d, assoc, region, path');
  }

  lemma {:induction false} PositionsCarryOver(
      meta: Meta, minus: Value, plus: Value, v: Value, d: Env, assoc: Assoc, region: Pos)
    requires Plain(minus) && Plain(plus) && Plain(v) && Unify.InPlace(minus, v) && PlacesDiffer(meta, minus)
    requires Match(CompileM(meta, minus), v, New).Some? && NoOp.SameAnswers(Match(CompileM(meta, minus), v, New).value, d)
    requires Replace(CompileR(meta, plus), d, assoc, region).Some?
    ensures CarriesPositions(meta, minus, plus, v, Replace(CompileR(meta, plus), d, assoc, region).value, region)
  {
    hide Plain, CompileM, Match, CompileR, Replace, PlacesDiffer, HasPlace, Unify.InPlace, PosOn, NoOp.SameAnswers;
    hide ConnectDots.SamePlace, SamePosition;
    var w := Replace(CompileR(meta, plus), d, assoc, region).value;
    forall path, a, path', b |
      PosOn(meta, minus, path) == Some(a) && PosOn(meta, plus, path') == Some(b) && ConnectDots.SamePlace(a, b)
      && a.IsValid() && b.IsValid() ensures SamePosition(w, path', v, path)
    {
      StandsAtItsMatch(meta, minus, plus, v, d, assoc, region, path, path');
    }
    forall path', b | PosOn(meta, plus, path') == Some(b) && b.IsValid() && !HasPlace(meta, minus, b)
      ensures PosOn(map[], w, path') == Some(region)
    {
      StandsInRegion(meta, minus, plus, v, d, assoc, region, path');
    }
    forall path', b | PosOn(meta, plus, path') == Some(b) && !b.IsValid() ensures PosOn(map[], w, path') == Some(b) {
      ReplacementStands(meta, plus, d, assoc, region, path');
    }
  }
}
