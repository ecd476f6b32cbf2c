/**
 * Model of internal/engine: patterns are compiled to matchers and replacers; a matcher extends an environment, a
 * replacer reads it. Recursive functions give the meaning; EngineLoops.dfy proves the source's loops against them.
 */
module Engine {
  import opened Wrappers
  import opened Data
  import opened Tree

  /** Sorts of metavariable (meta.go); names without an entry are ordinary identifiers. */
  datatype Sort = ExprVar | IdentVar

  type Meta = map<string, Sort>

  /** The items between two `...`s. */
  datatype Section<T> = Section(items: seq<T>)

  datatype Matcher =
    | NilM
    | SuccessM
    | PosM(pos: Pos)
    | ValueM(t: Type, lit: Lit)
    | PtrM(m: Matcher)
    | IfaceM(m: Matcher)
    | SliceM(items: seq<Matcher>)
    | StructM(t: Type, fields: seq<Matcher>)
    | MetavarM(name: string, sort: Sort)
    | SliceDotsM(sections: seq<Section<Matcher>>, dots: seq<Pos>)
    | ForDotsM(pos: Pos, body: Matcher)

  datatype Replacer =
    | ZeroR(t: Type)
    | PosR(pos: Pos)
    | ValueR(v: Value)
    | PtrR(t: Type, r: Replacer)
    | IfaceR(t: Type, r: Replacer)
    | SliceR(t: Type, items: seq<Replacer>)
    | StructR(t: Type, fields: seq<Replacer>)
    | MetavarR(name: string)
    | SliceDotsR(t: Type, sections: seq<Section<Replacer>>, dots: seq<Pos>)
    | ForDotsR(pos: Pos, body: Replacer)

  datatype Key =
    | MetaKey(name: string)
    | DotsKey(dots: Pos)
    | ForKey(dots: Pos)
    | PosKey(line: nat, column: nat)
    | StmtListKey

  datatype FieldAt = FieldAt(idx: nat, value: Value)

  /**
   * What the environment stores. The source keeps a captured tree as the matcher and the replacer compiled from it
   * without metavariables; compiling is a function of the tree, so the model keeps the tree and compiles on use.
   */
  datatype Entry =
    | Captured(v: Value)
    | Skipped(items: seq<Value>)
    | Around(t: Type, idx: nat, others: seq<FieldAt>)  // the statement around a body, without the body
    | Seen(pos: Pos)

  type Env = Data<Key, Entry>

  // ---------------------------------------------------------------- shapes

  function IdentName(v: Value): Option<string> {
    if v.Ptr? && v.t == IDENT_PTR && v.elem.Struct? && |v.elem.fields| == 3 && v.elem.fields[1].Prim?
       && v.elem.fields[1].lit.Text?
    then Some(v.elem.fields[1].lit.s)
    else None
  }

  /** The position of a `pgo.Dots` expression. */
  function DotsExpr(v: Value): Option<Pos> {
    if v.Iface? && v.elem.Ptr? && v.elem.t == PtrT(DOTS) && v.elem.elem.Struct? && |v.elem.elem.fields| == 2
       && v.elem.elem.fields[1].PosV?
    then Some(v.elem.elem.fields[1].pos)
    else None
  }

  /** The position of an identifier. */
  function NamePos(v: Value): Pos {
    if v.Ptr? && v.elem.Struct? && |v.elem.fields| == 3 && v.elem.fields[0].PosV? then v.elem.fields[0].pos else NoPos
  }

  /** The position of an item of an elidable list if the item stands for `...`. */
  function DotsItem(v: Value): Option<Pos> {
    if v.Iface? && v.t == EXPR then
      DotsExpr(v)
    else if v.Iface? && v.t == STMT && v.elem.Ptr? && v.elem.t == PtrT(EXPR_STMT) && v.elem.elem.Struct?
            && |v.elem.elem.fields| == 1
    then
      DotsExpr(v.elem.elem.fields[0])
    else if v.Ptr? && v.t == PtrT(FIELD) && v.elem.Struct? && |v.elem.fields| == 5 then
      match DotsExpr(v.elem.fields[2])
      case None => None
      case Some(p) => Some(if Items(v.elem.fields[1]) == [] then p else NamePos(Items(v.elem.fields[1])[0]))
    else
      None
  }

  /** The position of the `...` in a `for ...`, whose only clause is the condition. */
  function ForDots(v: Value): Option<Pos> {
    if v.Ptr? && v.t == FOR_STMT_PTR && v.elem.Struct? && |v.elem.fields| == 5
       && v.elem.fields[1].Nil? && v.elem.fields[3].Nil?
    then DotsExpr(v.elem.fields[2])
    else None
  }

  /** Where a loop statement keeps its body. */
  function BodyIndex(t: Type): Option<nat> {
    if t == FOR_STMT then Some(4) else if t == RANGE_STMT then Some(7) else None
  }

  predicate IsExpression(t: Type) {
    t.PtrT? && t.elem.StructT? && t.elem.isExpr
  }

  predicate Fits(sort: Sort, t: Type) {
    if sort.ExprVar? then IsExpression(t) else t == IDENT_PTR
  }

  // ------------------------------------------------------------- compilation

  /** The positions of the `...`s of a list. */
  function DotsIn(items: seq<Value>): seq<Pos> {
    if items == [] then []
    else
      (match DotsItem(items[0]) case Some(p) => [p] case None => []) + DotsIn(items[1..])
  }

  function CompileM(meta: Meta, v: Value): (m: Matcher)
    decreases v
  {
    if Cut(TypeOf(v)) then SuccessM
    else match v
      case Nil(t) => if Elidable(t) then SliceM([]) else NilM
      case PosV(p) => PosM(p)
      case Prim(t, lit) => ValueM(t, lit)
      case Ptr(t, e) =>
        if IdentName(v).Some? && IdentName(v).value in meta then
          MetavarM(IdentName(v).value, meta[IdentName(v).value])
        else if ForDots(v).Some? then
          ForDotsM(ForDots(v).value, CompileM(meta, e.fields[4]))
        else
          PtrM(CompileM(meta, e))
      case Iface(_, e) => IfaceM(CompileM(meta, e))
      case Slice(t, items) =>
        if Elidable(t) then
          var sections := SectionsM(meta, items);
          if |sections| == 1 then SliceM(sections[0].items) else SliceDotsM(sections, DotsIn(items))
        else
          SliceM(CompileAllM(meta, items))
      case Struct(t, fields) => StructM(t, CompileAllM(meta, fields))
  }

  function CompileAllM(meta: Meta, vs: seq<Value>): (ms: seq<Matcher>)
    ensures |ms| == |vs|
    decreases vs
  {
    seq(|vs|, i requires 0 <= i < |vs| => CompileM(meta, vs[i]))
  }

  /** The runs of items between the `...`s of a list. */
  function SectionsM(meta: Meta, items: seq<Value>): (sections: seq<Section<Matcher>>)
    ensures |sections| == |DotsIn(items)| + 1
    decreases items
  {
    if items == [] then
      [Section([])]
    else
      var rest := SectionsM(meta, items[1..]);
      if DotsItem(items[0]).Some? then [Section([])] + rest
      else [Section([CompileM(meta, items[0])] + rest[0].items)] + rest[1..]
  }

  function CompileR(meta: Meta, v: Value): Replacer
    decreases v
  {
    if Cut(TypeOf(v)) then ValueR(Nil(TypeOf(v)))
    else match v
      case Nil(t) => ZeroR(t)
      case PosV(p) => PosR(p)
      case Prim(_, _) => ValueR(v)
      case Ptr(t, e) =>
        if IdentName(v).Some? && IdentName(v).value in meta then
          MetavarR(IdentName(v).value)
        else if ForDots(v).Some? then
          ForDotsR(ForDots(v).value, CompileR(meta, e.fields[4]))
        else
          PtrR(t, CompileR(meta, e))
      case Iface(t, e) => IfaceR(t, CompileR(meta, e))
      case Slice(t, items) =>
        if Elidable(t) then
          var sections := SectionsR(meta, items);
          if |sections| == 1 then SliceR(t, sections[0].items) else SliceDotsR(t, sections, DotsIn(items))
        else
          SliceR(t, CompileAllR(meta, items))
      case Struct(t, fields) => StructR(t, CompileAllR(meta, fields))
  }

  function CompileAllR(meta: Meta, vs: seq<Value>): (rs: seq<Replacer>)
    ensures |rs| == |vs|
    decreases vs
  {
    seq(|vs|, i requires 0 <= i < |vs| => CompileR(meta, vs[i]))
  }

  function SectionsR(meta: Meta, items: seq<Value>): (sections: seq<Section<Replacer>>)
    ensures |sections| == |DotsIn(items)| + 1
    decreases items
  {
    if items == [] then
      [Section([])]
    else
      var rest := SectionsR(meta, items[1..]);
      if DotsItem(items[0]).Some? then [Section([])] + rest
      else [Section([CompileR(meta, items[0])] + rest[0].items)] + rest[1..]
  }

  /** All the `...`s that compiling a pattern records, in the order in which it meets them. */
  function DotsOf(v: Value): seq<Pos>
    decreases v
  {
    if Cut(TypeOf(v)) then []
    else match v
      case Ptr(t, e) => if ForDots(v).Some? then [ForDots(v).value] + DotsOf(e.fields[4]) else DotsOf(e)
      case Iface(_, e) => DotsOf(e)
      case Slice(t, items) => DotsOfAll(Elidable(t), items)
      case Struct(_, fields) => DotsOfAll(false, fields)
      case _ => []
  }

  function DotsOfAll(elidable: bool, vs: seq<Value>): seq<Pos>
    decreases vs
  {
    if vs == [] then []
    else
      (if elidable && DotsItem(vs[0]).Some? then [DotsItem(vs[0]).value] else DotsOf(vs[0]))
      + DotsOfAll(elidable, vs[1..])
  }

  // ---------------------------------------------------------------- matching

  /** The matcher looks up no metavariable. */
  predicate Closed(m: Matcher) {
    match m
    case MetavarM(_, _) => false
    case PtrM(m) => Closed(m)
    case IfaceM(m) => Closed(m)
    case SliceM(items) => ClosedAll(items)
    case StructM(_, fields) => ClosedAll(fields)
    case SliceDotsM(sections, _) => ClosedSecs(sections)
    case ForDotsM(_, body) => Closed(body)
    case _ => true
  }

  predicate ClosedAll(ms: seq<Matcher>) {
    forall i | 0 <= i < |ms| :: Closed(ms[i])
  }

  predicate ClosedSecs(sections: seq<Section<Matcher>>) {
    forall i | 0 <= i < |sections| :: ClosedAll(sections[i].items)
  }

  /** Without metavariables there is nothing to look up; this is how captured code is compiled. */
  lemma {:induction false} ClosedWithoutMeta(v: Value)
    ensures Closed(CompileM(map[], v))
    decreases v
  {
    match v
    case Ptr(t, e) => ClosedWithoutMeta(e); if ForDots(v).Some? { ClosedWithoutMeta(e.fields[4]); }
    case Iface(_, e) => ClosedWithoutMeta(e);
    case Slice(_, items) => ClosedItems(items); ClosedSections(items);
    case Struct(_, fields) => ClosedItems(fields);
    case _ =>
  }

  lemma {:induction false} ClosedItems(vs: seq<Value>)
    ensures ClosedAll(CompileAllM(map[], vs))
    decreases vs
  {
    forall i | 0 <= i < |vs| ensures Closed(CompileM(map[], vs[i])) { ClosedWithoutMeta(vs[i]); }
  }

  lemma {:induction false} ClosedSections(items: seq<Value>)
    ensures ClosedSecs(SectionsM(map[], items))
    decreases items
  {
    if items != [] {
      ClosedSections(items[1..]);
      ClosedWithoutMeta(items[0]);
    }
  }

  predicate IsSlice(v: Value) {
    v.Slice? || (v.Nil? && v.t.SliceT?)
  }

  function SkipNothing(dots: seq<Pos>, d: Env): (r: Env)
    ensures d.WellKeyed() ==> r.WellKeyed()
  {
    if dots == [] then d else SkipNothing(dots[1..], With(d, DotsKey(dots[0]), Skipped([])))
  }

  /** The same against a nil list. */
  function MatchNothing(sections: seq<Section<Matcher>>, dots: seq<Pos>, d: Env): (r: Option<Env>)
    requires |sections| == |dots| + 1
    ensures r.Some? && d.WellKeyed() ==> r.value.WellKeyed()
  {
    if exists i | 0 <= i < |sections| :: sections[i].items != [] then None else Some(SkipNothing(dots, d))
  }

  function OthersOf(fields: seq<Value>, idx: nat): seq<FieldAt> {
    if fields == [] then []
    else
      var last := |fields| - 1;
      OthersOf(fields[..last], idx) + if last == idx then [] else [FieldAt(last, fields[last])]
  }

  /** Matches `got` given what was captured so far; success gives the environment with the new captures. */
  function Match(m: Matcher, got: Value, d: Env): (r: Option<Env>)
    ensures r.Some? && d.WellKeyed() ==> r.value.WellKeyed()
    decreases got, if Closed(m) then 0 else 1
  {
    match m
    case NilM => if got.Nil? then Some(d) else None
    case SuccessM => Some(d)
    case PosM(p) =>
      if got.PosV? && p.IsValid() == got.pos.IsValid()
      then Some(With(d, PosKey(p.Line(), p.Column()), Seen(got.pos)))
      else None
    case ValueM(t, lit) => if got.Prim? && t == got.t && lit == got.lit then Some(d) else None
    case PtrM(m) => if got.Ptr? then Match(m, got.elem, d) else None
    case IfaceM(m) => if got.Iface? then Match(m, got.elem, d) else None
    case SliceM(items) =>
      if !IsSlice(got) || |items| != |Items(got)| then None
      else if got.Slice? then MatchPrefix(items, got.items, d, 0)
      else Some(d)
    case StructM(t, fields) =>
      if got.Struct? && t == got.t && |fields| == |got.fields| then MatchPrefix(fields, got.fields, d, 0) else None
    case MetavarM(name, sort) =>
      if !Fits(sort, TypeOf(got)) then None
      else (
        match d.Value(MetaKey(name))
        case Some(Captured(v)) =>
          ClosedWithoutMeta(v);
          if Match(CompileM(map[], v), got, New).Some? then Some(d) else None
        case _ => Some(With(d, MetaKey(name), Captured(got))))
    case SliceDotsM(sections, dots) =>
      if !IsSlice(got) || |sections| != |dots| + 1 then None
      else if got.Slice? then MatchElided(sections, dots, got.items, d)
      else MatchNothing(sections, dots, d)
    case ForDotsM(pos, body) =>
      if got.Ptr? && got.elem.Struct? && got.t == PtrT(got.elem.t) && BodyIndex(got.elem.t).Some?
         && BodyIndex(got.elem.t).value < |got.elem.fields|
      then
        var idx := BodyIndex(got.elem.t).value;
        Match(body, got.elem.fields[idx], With(d, ForKey(pos), Around(got.elem.t, idx, OthersOf(got.elem.fields, idx))))
      else
        None
  }

  /** matchPrefix: all of `want`, in place from got[idx] on. */
  function MatchPrefix(want: seq<Matcher>, got: seq<Value>, d: Env, idx: nat): (r: Option<Env>)
    requires idx <= |got|
    ensures r.Some? ==> idx + |want| <= |got|
    ensures r.Some? && d.WellKeyed() ==> r.value.WellKeyed()
    decreases got, 0, |want|
  {
    if want == [] then Some(d)
    else if idx >= |got| then None
    else
      match Match(want[0], got[idx], d)
      case None => None
      case Some(d1) => MatchPrefix(want[1..], got, d1, idx + 1)
  }

  /** findSection: the first place from got[i] on where `want` matches; the run got[idx..i] before it is skipped. */
  function FindSection(pos: Pos, want: seq<Matcher>, got: seq<Value>, d: Env, idx: nat, i: nat): (r: Option<(nat, Env)>)
    requires idx <= i <= |got|
    ensures r.Some? ==> i + |want| <= r.value.0 <= |got|
    ensures r.Some? && d.WellKeyed() ==> r.value.1.WellKeyed()
    decreases got, 1, |got| - i
  {
    if want == [] then
      Some((|got|, With(d, DotsKey(pos), Skipped(got[idx..]))))
    else if |got| <= i then
      None
    else
      match MatchPrefix(want, got, With(d, DotsKey(pos), Skipped(got[idx..i])), i)
      case Some(d1) => Some((i + |want|, d1))
      case None => FindSection(pos, want, got, d, idx, i + 1)
  }

  /** The sections behind the first one, each found behind the previous. */
  function FindSections(sections: seq<Section<Matcher>>, dots: seq<Pos>, got: seq<Value>, d: Env, idx: nat): (r: Option<(nat, Env)>)
    requires |sections| == |dots| && idx <= |got|
    ensures r.Some? ==> idx <= r.value.0 <= |got|
    ensures r.Some? && d.WellKeyed() ==> r.value.1.WellKeyed()
    decreases got, 2, |sections|
  {
    if sections == [] then Some((idx, d))
    else
      match FindSection(dots[0], sections[0].items, got, d, idx, idx)
      case None => None
      case Some((idx1, d1)) => FindSections(sections[1..], dots[1..], got, d1, idx1)
  }

  /** SliceDotsMatcher.Match */
  function MatchElided(sections: seq<Section<Matcher>>, dots: seq<Pos>, got: seq<Value>, d: Env): (r: Option<Env>)
    requires |sections| == |dots| + 1
    ensures r.Some? && d.WellKeyed() ==> r.value.WellKeyed()
    decreases got, 3
  {
    match MatchPrefix(sections[0].items, got, d, 0)
    case None => None
    case Some(d1) =>
      match FindSections(sections[1..], dots, got, d1, |sections[0].items|)
      case Some((idx, d2)) => if idx == |got| then Some(d2) else None
      case None => None
  }

  // ------------------------------------------------------------- replacement

  predicate ClosedR(r: Replacer) {
    match r
    case MetavarR(_) => false
    case PtrR(_, r) => ClosedR(r)
    case IfaceR(_, r) => ClosedR(r)
    case SliceR(_, items) => ClosedAllR(items)
    case StructR(_, fields) => ClosedAllR(fields)
    case SliceDotsR(_, sections, _) => ClosedSecsR(sections)
    case ForDotsR(_, body) => ClosedR(body)
    case _ => true
  }

  predicate ClosedAllR(rs: seq<Replacer>) {
    forall i | 0 <= i < |rs| :: ClosedR(rs[i])
  }

  predicate ClosedSecsR(sections: seq<Section<Replacer>>) {
    forall i | 0 <= i < |sections| :: ClosedAllR(sections[i].items)
  }

  lemma {:induction false} ClosedWithoutMetaR(v: Value)
    ensures ClosedR(CompileR(map[], v))
    decreases v
  {
    match v
    case Ptr(t, e) => ClosedWithoutMetaR(e); if ForDots(v).Some? { ClosedWithoutMetaR(e.fields[4]); }
    case Iface(_, e) => ClosedWithoutMetaR(e);
    case Slice(_, items) => ClosedItemsR(items); ClosedSectionsR(items);
    case Struct(_, fields) => ClosedItemsR(fields);
    case _ =>
  }

  lemma {:induction false} ClosedItemsR(vs: seq<Value>)
    ensures ClosedAllR(CompileAllR(map[], vs))
    decreases vs
  {
    forall i | 0 <= i < |vs| ensures ClosedR(CompileR(map[], vs[i])) { ClosedWithoutMetaR(vs[i]); }
  }

  lemma {:induction false} ClosedSectionsR(items: seq<Value>)
    ensures ClosedSecsR(SectionsR(map[], items))
    decreases items
  {
    if items != [] {
      ClosedSectionsR(items[1..]);
      ClosedWithoutMetaR(items[0]);
    }
  }

  /** reflect.Zero */
  function Zero(t: Type): Value
    decreases t
  {
    match t
    case PosT => PosV(NoPos)
    case BasicT(k) => Prim(t, if k.StringK? then Text("") else Number(0))
    case StructT(_, _, _, layout) => Struct(t, seq(|layout|, i requires 0 <= i < |layout| => Zero(layout[i])))
    case _ => Nil(t)
  }

  /** The fields with the recorded ones put back. */
  function SetAll(fields: seq<Value>, others: seq<FieldAt>): (r: seq<Value>)
    ensures |r| == |fields|
  {
    if others == [] then fields
    else
      var last := others[|others| - 1];
      var r := SetAll(fields, others[..|others| - 1]);
      if last.idx < |fields| then r[last.idx := last.value] else r
  }

  /** A new statement with the recorded fields and a new body. */
  function Rebuild(around: Entry, body: Value): Option<Value>
    requires around.Around?
  {
    var node := Zero(around.t);
    if node.Struct? && around.idx < |node.fields|
    then Some(Ptr(PtrT(around.t), Struct(around.t, SetAll(node.fields, around.others)[around.idx := body])))
    else None
  }

  type Assoc = map<Pos, Pos>

  /** A map lookup in the source's language: absent keys give the zero position. */
  function Partner(assoc: Assoc, p: Pos): Pos {
    if p in assoc then assoc[p] else NoPos
  }

  function Run(d: Env, dots: Pos): seq<Value> {
    match d.Value(DotsKey(dots))
    case Some(Skipped(items)) => items
    case _ => []
  }

  /** Builds the replacement from what was captured; None stands for the source's error returns. */
  function Replace(r: Replacer, d: Env, assoc: Assoc, pos: Pos): Option<Value>
    decreases if ClosedR(r) then 0 else 1, r
  {
    match r
    case ZeroR(t) => Some(Zero(t))
    case ValueR(v) => Some(v)
    case PosR(p) =>
      if !p.IsValid() then Some(PosV(p))
      else (
        match d.Value(PosKey(p.Line(), p.Column()))
        case Some(Seen(matched)) => Some(PosV(if matched.IsValid() then matched else pos))
        case _ => Some(PosV(pos)))
    case PtrR(t, r) => (match Replace(r, d, assoc, pos) case Some(v) => Some(Ptr(t, v)) case None => None)
    case IfaceR(t, r) => (match Replace(r, d, assoc, pos) case Some(v) => Some(Iface(t, v)) case None => None)
    case SliceR(t, items) => (
      match ReplaceAll(items, d, assoc, pos) case Some(vs) => Some(Slice(t, vs)) case None => None)
    case StructR(t, fields) => (
      match ReplaceAll(fields, d, assoc, pos) case Some(vs) => Some(Struct(t, vs)) case None => None)
    case MetavarR(name) => (
      match d.Value(MetaKey(name))
      case Some(Captured(v)) => ClosedWithoutMetaR(v); Replace(CompileR(map[], v), New, map[], pos)
      case _ => None)
    case SliceDotsR(t, sections, dots) => (
      match ReplaceSections(sections, dots, d, assoc, pos)
      case Some(vs) => Some(if vs == [] then Nil(t) else Slice(t, vs))
      case None => None)
    case ForDotsR(p, body) => (
      match d.Value(ForKey(Partner(assoc, p)))
      case Some(Around(t, idx, others)) => (
        match Replace(body, d, assoc, pos)
        case Some(v) => Rebuild(Around(t, idx, others), v)
        case None => None)
      case _ => None)
  }

  function ReplaceAll(rs: seq<Replacer>, d: Env, assoc: Assoc, pos: Pos): Option<seq<Value>>
    decreases if ClosedAllR(rs) then 0 else 1, rs
  {
    if rs == [] then Some([])
    else
      match Replace(rs[0], d, assoc, pos)
      case None => None
      case Some(v) =>
        match ReplaceAll(rs[1..], d, assoc, pos)
        case None => None
        case Some(vs) => Some([v] + vs)
  }

  /** The sections with the skipped runs of the associated `...`s in between. */
  function ReplaceSections(sections: seq<Section<Replacer>>, dots: seq<Pos>, d: Env, assoc: Assoc, pos: Pos): Option<seq<Value>>
    decreases if ClosedSecsR(sections) then 0 else 1, sections
  {
    if sections == [] then Some([])
    else
      match ReplaceAll(sections[0].items, d, assoc, pos)
      case None => None
      case Some(vs) =>
        match ReplaceSections(sections[1..], if dots == [] then [] else dots[1..], d, assoc, pos)
        case None => None
        case Some(rest) => Some(vs + (if dots == [] then [] else Run(d, Partner(assoc, dots[0]))) + rest)
  }
}
