/** The loops of internal/engine, in the form the source has them, against the functions that give their meaning. */
module EngineLoops {
  import opened Wrappers
  import opened Data
  import opened Tree
  import opened Engine
  import opened Elision

  // ------------------------------------------------------------- compilation

  /** The sections done so far, the section that is being collected, and the sections of the remaining items. */
  ghost function Glue<T>(done: seq<Section<T>>, current: seq<T>, rest: seq<Section<T>>): seq<Section<T>>
    requires rest != []
  {
    done + [Section(current + rest[0].items)] + rest[1..]
  }

  lemma {:induction false} GlueEnds<T>(done: seq<Section<T>>, current: seq<T>, rest: seq<Section<T>>)
    requires rest != []
    ensures Glue([], [], rest) == rest
    ensures Glue(done, current, [Section([])]) == done + [Section(current)]
  {
    assert [] + rest[0].items == rest[0].items && current + [] == current;
    assert [] + [rest[0]] + rest[1..] == rest;
    var last: seq<Section<T>> := [Section([])];
    assert last[1..] == [];
  }

  lemma {:induction false} GlueDots<T>(done: seq<Section<T>>, current: seq<T>, rest: seq<Section<T>>)
    requires rest != []
    ensures Glue(done, current, [Section([])] + rest) == Glue(done + [Section(current)], [], rest)
  {
    assert ([Section([])] + rest)[1..] == rest;
    assert current + [] == current && [] + rest[0].items == rest[0].items;
    assert Section([] + rest[0].items) == rest[0];
    assert [rest[0]] + rest[1..] == rest;
  }

  lemma {:induction false} GlueItem<T>(done: seq<Section<T>>, current: seq<T>, item: T, rest: seq<Section<T>>)
    requires rest != []
    ensures Glue(done, current, [Section([item] + rest[0].items)] + rest[1..]) == Glue(done, current + [item], rest)
  {
    assert ([Section([item] + rest[0].items)] + rest[1..])[1..] == rest[1..];
    assert current + ([item] + rest[0].items) == (current + [item]) + rest[0].items;
  }

  /** The definitions of the compiled list at its item i, and behind its last item. */
  lemma {:induction false} ListAt(meta: Meta, items: seq<Value>, i: nat)
    requires i <= |items|
    ensures i == |items| ==>
      && SectionsM(meta, items[i..]) == [Section([])] && SectionsR(meta, items[i..]) == [Section([])]
      && DotsIn(items[i..]) == [] == DotsOfAll(true, items[i..])
    ensures i < |items| ==>
      var item, rest := items[i], items[i + 1..];
      var (ms, rs) := (SectionsM(meta, rest), SectionsR(meta, rest));
      if DotsItem(item).Some? then
        && SectionsM(meta, items[i..]) == [Section([])] + ms
        && SectionsR(meta, items[i..]) == [Section([])] + rs
        && DotsIn(items[i..]) == [DotsItem(item).value] + DotsIn(rest)
        && DotsOfAll(true, items[i..]) == [DotsItem(item).value] + DotsOfAll(true, rest)
      else
        && SectionsM(meta, items[i..]) == [Section([CompileM(meta, item)] + ms[0].items)] + ms[1..]
        && SectionsR(meta, items[i..]) == [Section([CompileR(meta, item)] + rs[0].items)] + rs[1..]
        && DotsIn(items[i..]) == DotsIn(rest)
        && DotsOfAll(true, items[i..]) == DotsOf(item) + DotsOfAll(true, rest)
  {
    hide CompileM, CompileR, DotsItem, DotsOf;
    if i < |items| {
      assert items[i..][0] == items[i] && items[i..][1..] == items[i + 1..];
    }
  }

  lemma {:induction false} Regroup(a: seq<Pos>, b: seq<Pos>, c: seq<Pos>)
    ensures a + (b + c) == (a + b) + c
  {
  }

  lemma {:induction false} SliceCompiles(meta: Meta, t: Type, items: seq<Value>)
    requires Elidable(t) && !Cut(t)
    ensures var sections := SectionsM(meta, items);
      CompileM(meta, Slice(t, items)) == if |sections| == 1 then SliceM(sections[0].items) else SliceDotsM(sections, DotsIn(items))
    ensures var sections := SectionsR(meta, items);
      CompileR(meta, Slice(t, items)) ==
        if |sections| == 1 then SliceR(t, sections[0].items) else SliceDotsR(t, sections, DotsIn(items))
    ensures DotsOf(Slice(t, items)) == DotsOfAll(true, items)
  {
  }

  /** matcherCompiler.compileSliceDots; `recorded` is the compiler's list of all `...`s. */
  method CompileSliceDotsM(meta: Meta, t: Type, items: seq<Value>, recorded: seq<Pos>) returns (m: Matcher, recorded': seq<Pos>)
    requires Elidable(t) && !Cut(t)
    ensures m == CompileM(meta, Slice(t, items))
    ensures recorded' == recorded + DotsOf(Slice(t, items))
  {
    hide CompileM, DotsOf, DotsItem, SectionsM, DotsIn, DotsOfAll, Glue;
    var sections: seq<Section<Matcher>>, current: seq<Matcher>, dots: seq<Pos> := [], [], [];
    recorded' := recorded;
    assert items[0..] == items;
    GlueEnds(sections, current, SectionsM(meta, items));
    for i := 0 to |items|
      invariant SectionsM(meta, items) == Glue(sections, current, SectionsM(meta, items[i..]))
      invariant DotsIn(items) == dots + DotsIn(items[i..])
      invariant recorded + DotsOfAll(true, items) == recorded' + DotsOfAll(true, items[i..])
    {
      var item, rest := items[i], items[i + 1..];
      ListAt(meta, items, i);
      if DotsItem(item).Some? {
        var pos := DotsItem(item).value;
        GlueDots(sections, current, SectionsM(meta, rest));
        Regroup(dots, [pos], DotsIn(rest));
        Regroup(recorded', [pos], DotsOfAll(true, rest));
        dots := dots + [pos];
        sections := sections + [Section(current)];
        current := [];
        recorded' := recorded' + [pos];
      } else {
        GlueItem(sections, current, CompileM(meta, item), SectionsM(meta, rest));
        Regroup(recorded', DotsOf(item), DotsOfAll(true, rest));
        current := current + [CompileM(meta, item)];
        recorded' := recorded' + DotsOf(item);
      }
    }
    GlueEnds(sections, current, [Section([])]);
    ListAt(meta, items, |items|);
    sections := sections + [Section(current)];
    m := if |sections| == 1 then SliceM(sections[0].items) else SliceDotsM(sections, dots);
    assert CompileM(meta, Slice(t, items)) == m by { SliceCompiles(meta, t, items); }
    assert DotsOf(Slice(t, items)) == DotsOfAll(true, items) by { SliceCompiles(meta, t, items); }
  }

  /** replacerCompiler.compileSliceDots, for a list that is not nil. */
  method CompileSliceDotsR(meta: Meta, t: Type, items: seq<Value>, recorded: seq<Pos>) returns (r: Replacer, recorded': seq<Pos>)
    requires Elidable(t) && !Cut(t)
    ensures r == CompileR(meta, Slice(t, items))
    ensures recorded' == recorded + DotsOf(Slice(t, items))
  {
    hide CompileR, DotsOf, DotsItem, SectionsR, DotsIn, DotsOfAll, Glue;
    var sections: seq<Section<Replacer>>, current: seq<Replacer>, dots: seq<Pos> := [], [], [];
    recorded' := recorded;
    assert items[0..] == items;
    GlueEnds(sections, current, SectionsR(meta, items));
    for i := 0 to |items|
      invariant SectionsR(meta, items) == Glue(sections, current, SectionsR(meta, items[i..]))
      invariant DotsIn(items) == dots + DotsIn(items[i..])
      invariant recorded + DotsOfAll(true, items) == recorded' + DotsOfAll(true, items[i..])
    {
      var item, rest := items[i], items[i + 1..];
      ListAt(meta, items, i);
      if DotsItem(item).Some? {
        var pos := DotsItem(item).value;
        GlueDots(sections, current, SectionsR(meta, rest));
        Regroup(dots, [pos], DotsIn(rest));
        Regroup(recorded', [pos], DotsOfAll(true, rest));
        dots := dots + [pos];
        sections := sections + [Section(current)];
        current := [];
        recorded' := recorded' + [pos];
      } else {
        GlueItem(sections, current, CompileR(meta, item), SectionsR(meta, rest));
        Regroup(recorded', DotsOf(item), DotsOfAll(true, rest));
        current := current + [CompileR(meta, item)];
        recorded' := recorded' + DotsOf(item);
      }
    }
    GlueEnds(sections, current, [Section([])]);
    ListAt(meta, items, |items|);
    sections := sections + [Section(current)];
    r := if |sections| == 1 then SliceR(t, sections[0].items) else SliceDotsR(t, sections, dots);
    assert CompileR(meta, Slice(t, items)) == r by { SliceCompiles(meta, t, items); }
    assert DotsOf(Slice(t, items)) == DotsOfAll(true, items) by { SliceCompiles(meta, t, items); }
  }

  // ---------------------------------------------------------------- matching

  /** matchPrefix; the loops of SliceMatcher.Match and StructMatcher.Match are the case idx == 0. */
  method MatchItems(want: seq<Matcher>, got: seq<Value>, d: Env, idx: nat) returns (newIdx: nat, d': Env, ok: bool)
    requires idx <= |got|
    ensures ok <==> MatchPrefix(want, got, d, idx).Some?
    ensures ok ==> MatchPrefix(want, got, d, idx) == Some(d') && newIdx == idx + |want|
  {
    hide Match;
    newIdx, d', ok := idx, d, false;
    if |want| > |got| - idx {
      return;
    }
    for i := 0 to |want|
      invariant MatchPrefix(want, got, d, idx) == MatchPrefix(want[i..], got, d', idx + i)
    {
      assert want[i..][0] == want[i] && want[i..][1..] == want[i + 1..];
      match Match(want[i], got[i + idx], d')
      case None =>
        return;
      case Some(d1) =>
        d' := d1;
    }
    assert want[|want|..] == [];
    newIdx, ok := idx + |want|, true;
  }

  /** findSection */
  method SearchSection(pos: Pos, want: seq<Matcher>, got: seq<Value>, d: Env, idx: nat)
    returns (newIdx: nat, d': Env, ok: bool)
    requires idx <= |got|
    ensures ok <==> FindSection(pos, want, got, d, idx, idx).Some?
    ensures ok ==> FindSection(pos, want, got, d, idx, idx) == Some((newIdx, d'))
  {
    if |want| == 0 {
      newIdx, d', ok := MatchItems(want, got, With(d, DotsKey(pos), Skipped(got[idx..])), |got|);
      return;
    }
    for i := idx to |got|
      invariant FindSection(pos, want, got, d, idx, idx) == FindSection(pos, want, got, d, idx, i)
    {
      newIdx, d', ok := MatchItems(want, got, With(d, DotsKey(pos), Skipped(got[idx..i])), i);
      if ok {
        return;
      }
    }
    newIdx, d', ok := idx, d, false;
  }

  /** SliceDotsMatcher.Match */
  method MatchSliceDots(sections: seq<Section<Matcher>>, dots: seq<Pos>, got: seq<Value>, d: Env) returns (d': Env, ok: bool)
    requires |sections| == |dots| + 1
    ensures ok <==> MatchElided(sections, dots, got, d).Some?
    ensures ok ==> MatchElided(sections, dots, got, d) == Some(d')
  {
    var idx: nat;
    idx, d', ok := MatchItems(sections[0].items, got, d, 0);
    if !ok {
      return;
    }
    ghost var d1 := d';
    for i := 0 to |dots|
      invariant idx <= |got|
      invariant FindSections(sections[1..], dots, got, d1, |sections[0].items|) ==
                FindSections(sections[i + 1..], dots[i..], got, d', idx)
    {
      assert sections[i + 1..][0] == sections[i + 1] && sections[i + 1..][1..] == sections[i + 2..];
      assert dots[i..][0] == dots[i] && dots[i..][1..] == dots[i + 1..];
      idx, d', ok := SearchSection(dots[i], sections[i + 1].items, got, d', idx);
      if !ok {
        return;
      }
    }
    assert sections[|dots| + 1..] == [] && dots[|dots|..] == [];
    ok := idx == |got|;
  }

  // ------------------------------------------------------------- replacement

  /** The items built so far in front of the rest, unless the rest fails. */
  function Onto(items: seq<Value>, rest: Option<seq<Value>>): Option<seq<Value>> {
    match rest
    case Some(vs) => Some(items + vs)
    case None => None
  }

  lemma {:induction false} OntoConcat(a: seq<Value>, b: seq<Value>, rest: Option<seq<Value>>)
    ensures Onto(a, Onto(b, rest)) == Onto(a + b, rest)
    ensures Onto([], rest) == rest
  {
    if rest.Some? {
      assert a + (b + rest.value) == (a + b) + rest.value;
      assert [] + rest.value == rest.value;
    }
  }

  /** The loop of SliceReplacer.Replace and StructReplacer.Replace. */
  method ReplaceItems(rs: seq<Replacer>, d: Env, assoc: Assoc, pos: Pos) returns (r: Option<seq<Value>>)
    ensures r == ReplaceAll(rs, d, assoc, pos)
  {
    hide Replace;
    var items: seq<Value> := [];
    assert rs[0..] == rs;
    OntoConcat([], [], ReplaceAll(rs, d, assoc, pos));
    for i := 0 to |rs|
      invariant ReplaceAll(rs, d, assoc, pos) == Onto(items, ReplaceAll(rs[i..], d, assoc, pos))
    {
      assert rs[i..][0] == rs[i] && rs[i..][1..] == rs[i + 1..];
      match Replace(rs[i], d, assoc, pos)
      case None =>
        return None;
      case Some(item) =>
        OntoConcat(items, [item], ReplaceAll(rs[i + 1..], d, assoc, pos));
        items := items + [item];
    }
    assert rs[|rs|..] == [] && items + [] == items;
    return Some(items);
  }

  /** The definition of ReplaceSections at section i. */
  lemma {:induction false} SectionAt(sections: seq<Section<Replacer>>, dots: seq<Pos>, i: nat, d: Env, assoc: Assoc, pos: Pos, built: seq<Value>)
    requires |sections| == |dots| + 1 && i <= |dots|
    requires ReplaceAll(sections[i].items, d, assoc, pos) == Some(built)
    ensures ReplaceSections(sections[i..], dots[i..], d, assoc, pos) ==
      Onto(built + (if i < |dots| then Run(d, Partner(assoc, dots[i])) else []),
           ReplaceSections(sections[i + 1..], if i < |dots| then dots[i + 1..] else [], d, assoc, pos))
  {
    hide ReplaceAll;
    assert sections[i..][0] == sections[i] && sections[i..][1..] == sections[i + 1..];
    if i < |dots| { assert dots[i..][0] == dots[i] && dots[i..][1..] == dots[i + 1..]; }
  }

  lemma {:induction false} SectionFails(sections: seq<Section<Replacer>>, dots: seq<Pos>, i: nat, d: Env, assoc: Assoc, pos: Pos)
    requires i < |sections| && ReplaceAll(sections[i].items, d, assoc, pos).None?
    ensures ReplaceSections(sections[i..], dots, d, assoc, pos).None?
  {
    assert sections[i..][0] == sections[i];
  }

  lemma {:induction false} OntoNone(items: seq<Value>)
    ensures Onto(items, None) == None
  {
  }

  lemma {:induction false} SectionsDone(items: seq<Value>, d: Env, assoc: Assoc, pos: Pos)
    ensures Onto(items, ReplaceSections([], [], d, assoc, pos)) == Some(items)
  {
    assert items + [] == items;
  }

  /** SliceDotsReplacer.Replace: first the skipped runs are looked up, then sections and runs are written in turn. */
  method ReplaceSliceDots(t: Type, sections: seq<Section<Replacer>>, dots: seq<Pos>, d: Env, assoc: Assoc, pos: Pos)
    returns (r: Option<Value>)
    requires |sections| == |dots| + 1
    ensures r == Replace(SliceDotsR(t, sections, dots), d, assoc, pos)
  {
    hide ReplaceAll, ReplaceSections, Onto, Run;
    var skipped: seq<seq<Value>> := [];
    for i := 0 to |dots|
      invariant |skipped| == i && forall j | 0 <= j < i :: skipped[j] == Run(d, Partner(assoc, dots[j]))
    {
      skipped := skipped + [Run(d, Partner(assoc, dots[i]))];
    }
    var items: seq<Value> := [];
    assert sections[0..] == sections && dots[0..] == dots;
    OntoConcat([], [], ReplaceSections(sections, dots, d, assoc, pos));
    for i := 0 to |sections|
      invariant ReplaceSections(sections, dots, d, assoc, pos) ==
                Onto(items, ReplaceSections(sections[i..], if i <= |dots| then dots[i..] else [], d, assoc, pos))
    {
      ghost var rest := ReplaceSections(sections[i + 1..], if i < |dots| then dots[i + 1..] else [], d, assoc, pos);
      var built := ReplaceItems(sections[i].items, d, assoc, pos);
      if built.None? {
        SectionFails(sections, dots[i..], i, d, assoc, pos);
        OntoNone(items);
        return None;
      }
      SectionAt(sections, dots, i, d, assoc, pos, built.value);
      ghost var added := built.value + if i < |dots| then Run(d, Partner(assoc, dots[i])) else [];
      OntoConcat(items, added, rest);
      ghost var before := items;
      items := items + built.value;
      if i < |skipped| {
        items := items + skipped[i];
      }
      assert items == before + added;
    }
    assert sections[|sections|..] == [];
    SectionsDone(items, d, assoc, pos);
    return Some(if |items| == 0 then Nil(t) else Slice(t, items));
  }

  // ------------------------------------------------- statements around a body or a list

  /** The loop over the fields in ForDotsMatcher.Match and in stmtSliceContainerMatcher.Match. */
  method SplitFields(fields: seq<Value>, idx: nat) returns (field: Value, others: seq<FieldAt>)
    requires idx < |fields|
    ensures field == fields[idx] && others == OthersOf(fields, idx)
  {
    field, others := fields[0], [];
    for i := 0 to |fields|
      invariant others == OthersOf(fields[..i], idx)
      invariant i > idx ==> field == fields[idx]
    {
      assert fields[..i + 1][..i] == fields[..i];
      if i == idx {
        field := fields[i];
      } else {
        others := others + [FieldAt(i, fields[i])];
      }
    }
    assert fields[..|fields|] == fields;
  }

  /** The loop that puts the recorded fields on a new node, and the body or list after it. */
  method JoinFields(t: Type, idx: nat, others: seq<FieldAt>, field: Value) returns (v: Value)
    requires t.StructT? && idx < |t.layout| && forall f | f in others :: f.idx < |t.layout|
    ensures Some(v) == Rebuild(Around(t, idx, others), field)
  {
    var fields := Zero(t).fields;
    for i := 0 to |others|
      invariant fields == SetAll(Zero(t).fields, others[..i])
    {
      assert others[..i + 1][..i] == others[..i];
      assert others[i] in others;
      fields := fields[others[i].idx := others[i].value];
    }
    assert others[..|others|] == others;
    v := Ptr(PtrT(t), Struct(t, fields[idx := field]));
  }
}
