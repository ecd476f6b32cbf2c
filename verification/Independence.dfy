/** Which list patterns leftmost search can be trusted with: exactly those whose sections are independent. */
module Independence {
  import opened Wrappers
  import opened Data
  import opened Tree
  import opened Engine
  import opened Capture
  import opened Unify
  import opened Elision
  import opened CanonicalTrees
  import NoOp

  // ------------------------------------------------------------ pattern lists in sections

  /** The items are a list of ordinary Go code. */
  ghost predicate ListOf(t: Type, vs: seq<Value>) {
    Plain(Slice(SliceT(t), vs))
  }

  lemma {:induction false} ListParts(t: Type, vs: seq<Value>)
    ensures ListOf(t, vs) <==> forall i | 0 <= i < |vs| :: Plain(vs[i]) && TypeOf(vs[i]) == t && DotsItem(vs[i]).None?
  {
    var v := Slice(SliceT(t), vs);
    assert WellTyped(v) <==> forall i | 0 <= i < |vs| :: TypeOf(vs[i]) == t && WellTyped(vs[i]);
    assert DotsFree(v) <==> forall i | 0 <= i < |vs| :: DotsItem(vs[i]).None? && DotsFree(vs[i]);
  }

  function Compiled(meta: Meta, pieces: seq<seq<Value>>): (sections: seq<Section<Matcher>>)
    ensures |sections| == |pieces|
  {
    seq(|pieces|, i requires 0 <= i < |pieces| => Section(CompileAllM(meta, pieces[i])))
  }

  /** A list pattern, cut at its `...`s. */
  function Pieces(items: seq<Value>): (pieces: seq<seq<Value>>)
    ensures pieces != []
  {
    if items == [] then
      [[]]
    else
      var rest := Pieces(items[1..]);
      if DotsItem(items[0]).Some? then [[]] + rest else [[items[0]] + rest[0]] + rest[1..]
  }

  lemma {:induction false} CompiledFirst(meta: Meta, piece: seq<Value>, pieces: seq<seq<Value>>)
    ensures Compiled(meta, [piece] + pieces) == [Section(CompileAllM(meta, piece))] + Compiled(meta, pieces)
  {
  }

  /** Cutting and compiling commute. */
  lemma {:induction false} PiecesAreSections(meta: Meta, items: seq<Value>)
    ensures SectionsM(meta, items) == Compiled(meta, Pieces(items))
    decreases |items|
  {
    hide CompileM, DotsItem;
    if items == [] {
      assert CompileAllM(meta, []) == [];
    } else {
      PiecesAreSections(meta, items[1..]);
      var rest := Pieces(items[1..]);
      assert CompileAllM(meta, [items[0]] + rest[0]) == [CompileM(meta, items[0])] + CompileAllM(meta, rest[0]);
      assert CompileAllM(meta, []) == [];
      hide CompileAllM, Compiled;
      CompiledFirst(meta, [], rest);
      CompiledFirst(meta, [items[0]] + rest[0], rest[1..]);
      CompiledFirst(meta, rest[0], rest[1..]);
      assert [rest[0]] + rest[1..] == rest;
    }
  }

  /** The metavariables of a run of pattern items. */
  ghost function Mentioned(meta: Meta, ps: seq<Value>): set<string> {
    VarsAllM(CompileAllM(meta, ps))
  }

  /** No two pieces mention the same metavariable, except for those given. */
  ghost predicate Separate(meta: Meta, pieces: seq<seq<Value>>, bound: set<string>) {
    forall i, j, x | 0 <= i < j < |pieces| && x in Mentioned(meta, pieces[i]) && x in Mentioned(meta, pieces[j]) :: x in bound
  }

  /** The environment has captures for exactly the given names. */
  ghost predicate Binds(d: Env, bound: set<string>) {
    forall x :: Bound(d, x).Some? <==> x in bound
  }

  // --------------------------------------------------------------------- text of a tree

  /** The text occurs in the tree, where the engine looks. */
  ghost predicate Tells(v: Value, a: string) {
    !Cut(TypeOf(v)) &&
    match v
    case Prim(_, lit) => lit == Text(a)
    case Ptr(_, e) => Tells(e, a)
    case Iface(_, e) => Tells(e, a)
    case Slice(_, items) => exists i | 0 <= i < |items| :: Tells(items[i], a)
    case Struct(_, fields) => exists i | 0 <= i < |fields| :: Tells(fields[i], a)
    case _ => false
  }

  lemma {:induction false} EqTells(v: Value, w: Value, a: string)
    requires Eq(v, w) && Tells(v, a)
    ensures Tells(w, a)
    decreases v
  {
    match v
    case Ptr(_, e) => EqTells(e, w.elem, a);
    case Iface(_, e) => EqTells(e, w.elem, a);
    case Slice(_, items) =>
      var i :| 0 <= i < |items| && Tells(items[i], a);
      EqTells(items[i], Items(w)[i], a);
    case Struct(_, fields) =>
      var i :| 0 <= i < |fields| && Tells(fields[i], a);
      EqTells(fields[i], w.fields[i], a);
    case _ =>
  }

  /** A pattern with a tree in place of a metavariable tells what the tree tells. */
  lemma {:induction false} ApplyTells(meta: Meta, p: Value, s: Subst, x: string, a: string)
    requires x in Vars(meta, p) && x in s && Tells(s[x], a)
    ensures Tells(Apply(meta, p, s), a)
    decreases p
  {
    match p
    case Ptr(_, e) => if !IsVariable(meta, p) { ApplyTells(meta, e, s, x, a); }
    case Iface(_, e) => ApplyTells(meta, e, s, x, a);
    case Slice(_, items) =>
      var i :| 0 <= i < |items| && x in Vars(meta, items[i]);
      ApplyTells(meta, items[i], s, x, a);
      assert ApplyAll(meta, items, s)[i] == Apply(meta, items[i], s);
    case Struct(_, fields) =>
      var i :| 0 <= i < |fields| && x in Vars(meta, fields[i]);
      ApplyTells(meta, fields[i], s, x, a);
      assert ApplyAll(meta, fields, s)[i] == Apply(meta, fields[i], s);
  }

  ghost predicate SomeTells(s: Subst, a: string) {
    exists y :: y in s && Tells(s[y], a)
  }

  lemma {:induction false} ItTells(s: Subst, y: string, a: string)
    requires y in s && Tells(s[y], a)
    ensures SomeTells(s, a)
  {
  }

  /** And it tells nothing else. */
  lemma {:induction false} ApplyTellsNoMore(meta: Meta, p: Value, s: Subst, a: string)
    requires Tells(Apply(meta, p, s), a)
    ensures Tells(p, a) || SomeTells(s, a)
    decreases p
  {
    hide SomeTells;
    match p
    case Ptr(_, e) =>
      if IsVariable(meta, p) && IdentName(p).value in s {
        assert SomeTells(s, a) by { ItTells(s, IdentName(p).value, a); }
      } else if !IsVariable(meta, p) {
        ApplyTellsNoMore(meta, e, s, a);
      }
    case Iface(_, e) => ApplyTellsNoMore(meta, e, s, a);
    case Slice(_, items) =>
      var i :| 0 <= i < |items| && Tells(ApplyAll(meta, items, s)[i], a);
      ApplyTellsNoMore(meta, items[i], s, a);
    case Struct(_, fields) =>
      var i :| 0 <= i < |fields| && Tells(ApplyAll(meta, fields, s)[i], a);
      ApplyTellsNoMore(meta, fields[i], s, a);
    case _ =>
  }

  lemma {:induction false} NameTells(b: string, a: string)
    ensures Tells(Name(b).elem, a) <==> a == b
  {
    var v := Name(b).elem;
    assert Tells(v, a) <==> Tells(v.elem, a);
    assert v.elem.fields == [PosV(NoPos), Prim(STRING, Text(b)), Nil(OBJECT_PTR)];
    assert Tells(v.elem.fields[1], a) <==> a == b;
    assert !Tells(v.elem.fields[0], a) && !Tells(v.elem.fields[2], a);
  }

  /** The length of the longest text of a tree. */
  ghost function Longest(v: Value): nat
    decreases v
  {
    match v
    case Prim(_, lit) => if lit.Text? then |lit.s| else 0
    case Ptr(_, e) => Longest(e)
    case Iface(_, e) => Longest(e)
    case Slice(_, items) => LongestAll(items)
    case Struct(_, fields) => LongestAll(fields)
    case _ => 0
  }

  ghost function LongestAll(vs: seq<Value>): nat
    decreases vs
  {
    if vs == [] then 0 else
      var n, m := Longest(vs[0]), LongestAll(vs[1..]);
      if n < m then m else n
  }

  lemma {:induction false} TextIsShort(v: Value, a: string)
    requires Tells(v, a)
    ensures |a| <= Longest(v)
    decreases v, 1
  {
    match v
    case Ptr(_, e) => TextIsShort(e, a);
    case Iface(_, e) => TextIsShort(e, a);
    case Slice(_, items) => TextsAreShort(items, a);
    case Struct(_, fields) => TextsAreShort(fields, a);
    case _ =>
  }

  lemma {:induction false} TextsAreShort(vs: seq<Value>, a: string)
    requires exists i | 0 <= i < |vs| :: Tells(vs[i], a)
    ensures |a| <= LongestAll(vs)
    decreases vs, 0
  {
    var i :| 0 <= i < |vs| && Tells(vs[i], a);
    if i == 0 {
      TextIsShort(vs[0], a);
    } else {
      assert vs[1..][i - 1] == vs[i];
      TextsAreShort(vs[1..], a);
    }
  }

  // --------------------------------------------------------------------- instances

  /** Every metavariable stands for a name. */
  ghost predicate Naming(meta: Meta, s: Subst) {
    && (forall y | y in meta :: y in s)
    && forall y | y in s :: s[y].Ptr? && s[y].t == IDENT_PTR && Plain(s[y])
  }

  /** A boxed node, one level at a time. */
  lemma {:induction false} ApplyToNode(meta: Meta, v: Value, s: Subst)
    requires Naming(meta, s) && v.Iface?
    ensures Apply(meta, v, s) == Iface(v.t, Apply(meta, v.elem, s))
    ensures v.elem.Ptr? ==>
      Apply(meta, v.elem, s) ==
        if IsVariable(meta, v.elem) then s[IdentName(v.elem).value] else Ptr(v.elem.t, Apply(meta, v.elem.elem, s))
    ensures !v.elem.Ptr? ==> !Apply(meta, v.elem, s).Ptr?
    ensures v.elem.Ptr? && v.elem.elem.Struct? ==>
      Apply(meta, v.elem.elem, s) == Struct(v.elem.elem.t, ApplyAll(meta, v.elem.elem.fields, s))
    ensures v.elem.Ptr? && !v.elem.elem.Struct? ==> !Apply(meta, v.elem.elem, s).Struct? || IsVariable(meta, v.elem.elem)
  {
  }

  lemma {:induction false} ApplyDotsExpr(meta: Meta, v: Value, s: Subst)
    requires Naming(meta, s) && DotsExpr(v).None?
    ensures DotsExpr(Apply(meta, v, s)).None?
  {
    if v.Iface? {
      ApplyToNode(meta, v, s);
      if v.elem.Ptr? && v.elem.elem.Struct? && |v.elem.elem.fields| == 2 {
        var fields := v.elem.elem.fields;
        assert ApplyAll(meta, fields, s)[1] == Apply(meta, fields[1], s);
      }
    }
  }

  lemma {:induction false} ApplyDotsItem(meta: Meta, v: Value, s: Subst)
    requires Naming(meta, s) && DotsItem(v).None?
    ensures DotsItem(Apply(meta, v, s)).None?
  {
    if v.Iface? {
      ApplyToNode(meta, v, s);
      if v.t == EXPR {
        ApplyDotsExpr(meta, v, s);
      } else if v.t == STMT && v.elem.Ptr? && v.elem.t == PtrT(EXPR_STMT) && v.elem.elem.Struct? && |v.elem.elem.fields| == 1 {
        var fields := v.elem.elem.fields;
        ApplyDotsExpr(meta, fields[0], s);
        assert ApplyAll(meta, fields, s)[0] == Apply(meta, fields[0], s);
      }
    } else if v.Ptr? && v.t == PtrT(FIELD) && v.elem.Struct? && |v.elem.fields| == 5 {
      ApplyDotsExpr(meta, v.elem.fields[2], s);
      assert ApplyAll(meta, v.elem.fields, s)[2] == Apply(meta, v.elem.fields[2], s);
    }
  }

  lemma {:induction false} ApplyForDots(meta: Meta, p: Value, s: Subst)
    requires Naming(meta, s) && p.Ptr? && !IsVariable(meta, p) && ForDots(p).None?
    ensures ForDots(Ptr(p.t, Apply(meta, p.elem, s))).None?
  {
    if p.elem.Struct? && |p.elem.fields| == 5 {
      var fields := ApplyAll(meta, p.elem.fields, s);
      assert forall i | 0 <= i < 5 :: fields[i] == Apply(meta, p.elem.fields[i], s);
      if DotsExpr(p.elem.fields[2]).None? { ApplyDotsExpr(meta, p.elem.fields[2], s); }
    }
  }

  /** A pattern of ordinary code with names in place of its metavariables is ordinary code of the same type. */
  lemma {:induction false} ApplyIsPlain(meta: Meta, p: Value, s: Subst)
    requires Plain(p) && Naming(meta, s)
    ensures Plain(Apply(meta, p, s)) && TypeOf(Apply(meta, p, s)) == TypeOf(p)
    ensures p.Ptr? ==> Apply(meta, p, s).Ptr?
    decreases p
  {
    PlainParts(p);
    match p
    case Ptr(_, e) =>
      if !IsVariable(meta, p) {
        ApplyIsPlain(meta, e, s);
        ApplyForDots(meta, p, s);
      }
    case Iface(_, e) => ApplyIsPlain(meta, e, s);
    case Slice(_, items) =>
      forall i | 0 <= i < |items|
        ensures Plain(Apply(meta, items[i], s)) && TypeOf(Apply(meta, items[i], s)) == TypeOf(items[i])
        ensures DotsItem(Apply(meta, items[i], s)).None?
      {
        ApplyIsPlain(meta, items[i], s);
        ApplyDotsItem(meta, items[i], s);
      }
    case Struct(_, fields) =>
      forall i | 0 <= i < |fields|
        ensures Plain(Apply(meta, fields[i], s)) && TypeOf(Apply(meta, fields[i], s)) == TypeOf(fields[i])
      {
        ApplyIsPlain(meta, fields[i], s);
      }
    case _ =>
  }

  // ------------------------------------------------------------- captures reappear

  /** The compiled pattern looks up only metavariables that the pattern mentions. */
  lemma {:induction false} VarsCompiled(meta: Meta, p: Value, x: string)
    requires Plain(p) && x in VarsM(CompileM(meta, p))
    ensures x in Vars(meta, p)
    decreases p, 1
  {
    hide WellTyped, DotsFree;
    PlainParts(p);
    if !Cut(TypeOf(p)) {
      match p
      case Ptr(_, e) => if !IsVariable(meta, p) { VarsCompiled(meta, e, x); }
      case Iface(_, e) => VarsCompiled(meta, e, x);
      case Slice(_, items) =>
        OneSection(meta, items);
        VarsAllCompiled(meta, items, x);
      case Struct(_, fields) => VarsAllCompiled(meta, fields, x);
      case _ =>
    }
  }

  lemma {:induction false} VarsAllCompiled(meta: Meta, ps: seq<Value>, x: string)
    requires PlainAll(ps) && x in Mentioned(meta, ps)
    ensures x in VarsAll(meta, ps)
    decreases ps, 0
  {
    hide WellTyped, DotsFree, CompileM, Vars;
    if ps != [] {
      assert CompileAllM(meta, ps)[1..] == CompileAllM(meta, ps[1..]);
      if x in VarsM(CompileM(meta, ps[0])) {
        VarsCompiled(meta, ps[0], x);
        assert x in Vars(meta, ps[0]);
      } else {
        VarsAllCompiled(meta, ps[1..], x);
        var i :| 0 <= i < |ps[1..]| && x in Vars(meta, ps[1..][i]);
        assert x in Vars(meta, ps[i + 1]);
      }
    }
  }

  ghost predicate BoundTells(d: Env, x: string, a: string) {
    Bound(d, x).Some? && Tells(Bound(d, x).value, a)
  }

  /** An item that mentions a bound metavariable matches only what tells what was captured. */
  lemma {:induction false} ItemTells(meta: Meta, p: Value, v: Value, d: Env, x: string, a: string)
    requires Plain(p) && Plain(v) && InPlace(p, v) && PlainEnv(d) && Match(CompileM(meta, p), v, d).Some?
    requires x in VarsM(CompileM(meta, p)) && BoundTells(d, x, a)
    ensures Tells(v, a)
  {
    hide WellTyped, DotsFree, Match, CompileM, Tells, InPlace, Eq, Apply;
    var m := CompileM(meta, p);
    var d1 := Match(m, v, d).value;
    var s := Captures(d1);
    MatchCapturesPlain(m, v, d);
    MatchKeeps(m, v, d, MetaKey(x));
    forall y
      ensures Bound(d1, y).Some? ==> y in s && s[y] == Bound(d1, y).value
      ensures y in s ==> Plain(s[y])
    {
      BoundIsNamed(d1, y);
    }
    MatchSolves(meta, p, v, d, s);
    VarsCompiled(meta, p, x);
    ApplyTells(meta, p, s, x, a);
    EqTells(Apply(meta, p, s), v, a);
  }

  ghost predicate SomeItemTells(vs: seq<Value>, i: nat, j: nat, a: string) {
    exists k | i <= k < j && k < |vs| :: Tells(vs[k], a)
  }

  lemma {:induction false} PrefixTells(
      meta: Meta, t: Type, ps: seq<Value>, got: seq<Value>, d: Env, idx: nat, x: string, a: string)
    requires ListOf(t, ps) && ListOf(t, got) && PlainEnv(d) && idx <= |got|
    requires MatchPrefix(CompileAllM(meta, ps), got, d, idx).Some?
    requires x in Mentioned(meta, ps) && BoundTells(d, x, a)
    ensures SomeItemTells(got, idx, idx + |ps|, a)
    decreases |ps|
  {
    hide WellTyped, DotsFree, Match, CompileM, Tells, ListOf;
    ListParts(t, ps);
    ListParts(t, got);
    if ps != [] {
      var ms := CompileAllM(meta, ps);
      assert ms[1..] == CompileAllM(meta, ps[1..]);
      if x in VarsM(ms[0]) {
        ItemTells(meta, ps[0], got[idx], d, x, a);
      } else {
        MatchCapturesPlain(ms[0], got[idx], d);
        MatchKeeps(ms[0], got[idx], d, MetaKey(x));
        ListParts(t, ps[1..]);
        PrefixTells(meta, t, ps[1..], got, Match(ms[0], got[idx], d).value, idx + 1, x, a);
      }
    }
  }

  ghost predicate ListsOf(t: Type, pieces: seq<seq<Value>>) {
    forall i | 0 <= i < |pieces| :: ListOf(t, pieces[i]) && pieces[i] != []
  }

  lemma {:induction false} CompiledTail(meta: Meta, pieces: seq<seq<Value>>)
    requires pieces != []
    ensures Compiled(meta, pieces)[1..] == Compiled(meta, pieces[1..])
    ensures Compiled(meta, pieces)[0] == Section(CompileAllM(meta, pieces[0]))
  {
  }

  lemma {:induction false} ListIsPlain(t: Type, vs: seq<Value>)
    requires ListOf(t, vs)
    ensures PlainAll(vs)
  {
    ListParts(t, vs);
  }

  lemma {:induction false} SectionsTell(
      meta: Meta, t: Type, pieces: seq<seq<Value>>, dots: seq<Pos>, got: seq<Value>, d: Env, idx: nat, x: string, a: string)
    requires ListsOf(t, pieces) && ListOf(t, got) && PlainEnv(d) && idx <= |got| && |dots| == |pieces|
    requires FindSections(Compiled(meta, pieces), dots, got, d, idx).Some? && BoundTells(d, x, a)
    requires exists j | 0 <= j < |pieces| :: x in Mentioned(meta, pieces[j])
    ensures SomeItemTells(got, idx, |got|, a)
    decreases |pieces|
  {
    hide FindSection, MatchPrefix, CompileAllM, Compiled, Tells, ListOf, PlainEnv, Agree, Mentioned;
    CompiledTail(meta, pieces);
    var want := CompileAllM(meta, pieces[0]);
    FindsLeast(dots[0], want, got, d, idx, idx);
    var (idx1, d1) := FindSection(dots[0], want, got, d, idx, idx).value;
    if x in Mentioned(meta, pieces[0]) {
      PrefixTells(meta, t, pieces[0], got, d, idx1 - |want|, x, a);
    } else {
      var j :| 0 <= j < |pieces| && x in Mentioned(meta, pieces[j]);
      assert x in Mentioned(meta, pieces[1..][j - 1]);
      assert PlainAll(got) by { ListIsPlain(t, got); }
      SectionCapturesPlain(dots[0], want, got, d, idx, idx);
      SectionKeeps(dots[0], want, got, d, idx, idx, MetaKey(x));
      SectionsTell(meta, t, pieces[1..], dots[1..], got, d1, idx1, x, a);
    }
  }

  // ------------------------------------------------------------- instances match

  lemma {:induction false} NilledIsCanonical(v: Value)
    ensures Canonical(Nilled(v))
    decreases v
  {
    match v
    case Ptr(_, e) => NilledIsCanonical(e);
    case Iface(_, e) => NilledIsCanonical(e);
    case Slice(_, items) => forall i | 0 <= i < |items| ensures Canonical(NilledAll(items)[i]) { NilledIsCanonical(items[i]); }
    case Struct(_, fields) =>
      forall i | 0 <= i < |fields| ensures Canonical(NilledAll(fields)[i]) { NilledIsCanonical(fields[i]); }
    case _ =>
  }

  lemma {:induction false} VarsAreDeclared(meta: Meta, p: Value, x: string)
    requires x in Vars(meta, p)
    ensures x in meta
    decreases p
  {
    match p
    case Ptr(_, e) => if !IsVariable(meta, p) { VarsAreDeclared(meta, e, x); }
    case Iface(_, e) => VarsAreDeclared(meta, e, x);
    case Slice(_, items) => var i :| 0 <= i < |items| && x in Vars(meta, items[i]); VarsAreDeclared(meta, items[i], x);
    case Struct(_, fields) => var i :| 0 <= i < |fields| && x in Vars(meta, fields[i]); VarsAreDeclared(meta, fields[i], x);
  }

  /** Code that the pattern matches: names in place of its metavariables, lists as the parser builds them. */
  function Instance(meta: Meta, p: Value, s: Subst): Value {
    Nilled(Apply(meta, p, s))
  }

  lemma {:induction false} InstanceSolves(meta: Meta, p: Value, s: Subst)
    requires Plain(p) && Naming(meta, s)
    ensures Plain(Instance(meta, p, s)) && TypeOf(Instance(meta, p, s)) == TypeOf(p) && Canonical(Instance(meta, p, s))
    ensures Solves(meta, p, s, Instance(meta, p, s))
    ensures DotsItem(p).None? ==> DotsItem(Instance(meta, p, s)).None?
  {
    hide Apply, Nilled, DotsItem, WellTyped, DotsFree, Canonical, Eq;
    var w := Apply(meta, p, s);
    ApplyIsPlain(meta, p, s);
    NilledIsEqual(w);
    NilledIsDotsFree(w);
    NilledIsCanonical(w);
    EqSym(Nilled(w), w);
    NoOp.SameDotsItem(w, Nilled(w));
    if DotsItem(p).None? { ApplyDotsItem(meta, p, s); }
    forall x | x in Vars(meta, p) ensures x in s && x in meta && Plain(s[x]) && Fits(meta[x], TypeOf(s[x])) {
      VarsAreDeclared(meta, p, x);
    }
  }

  /** An instance tells only what the pattern and the names tell. */
  lemma {:induction false} InstanceTells(meta: Meta, p: Value, s: Subst, a: string)
    requires Plain(p) && Naming(meta, s) && Tells(Instance(meta, p, s), a)
    ensures Tells(p, a) || SomeTells(s, a)
  {
    hide Apply, Nilled, WellTyped, DotsFree, Eq, Tells;
    ApplyIsPlain(meta, p, s);
    NilledIsEqual(Apply(meta, p, s));
    EqTells(Instance(meta, p, s), Apply(meta, p, s), a);
    ApplyTellsNoMore(meta, p, s, a);
  }

  lemma {:induction false} InstanceMatches(meta: Meta, p: Value, s: Subst, d: Env)
    requires Plain(p) && Naming(meta, s) && PlainEnv(d) && Agrees(d, s)
    ensures Match(CompileM(meta, p), Instance(meta, p, s), d).Some?
    ensures var d1 := Match(CompileM(meta, p), Instance(meta, p, s), d).value; Agrees(d1, s) && PlainEnv(d1)
  {
    hide Match, CompileM, WellTyped, DotsFree, Canonical, Solves, Instance, Agrees, PlainEnv;
    InstanceSolves(meta, p, s);
    SolvedMatches(meta, p, Instance(meta, p, s), d, s);
    MatchCapturesPlain(CompileM(meta, p), Instance(meta, p, s), d);
  }

  function Instances(meta: Meta, ps: seq<Value>, s: Subst): (r: seq<Value>)
    ensures |r| == |ps|
  {
    seq(|ps|, i requires 0 <= i < |ps| => Instance(meta, ps[i], s))
  }

  /** What an environment binds and how it agrees with names, after a match. */
  ghost predicate HasNames(d: Env, s: Subst, bound: set<string>) {
    PlainEnv(d) && Agrees(d, s) && Binds(d, bound)
  }

  lemma {:induction false} PrefixOfInstances(
      meta: Meta, t: Type, ps: seq<Value>, s: Subst, got: seq<Value>, d: Env, idx: nat)
    requires ListOf(t, ps) && Naming(meta, s) && PlainEnv(d) && Agrees(d, s)
    requires idx + |ps| <= |got| && got[idx..idx + |ps|] == Instances(meta, ps, s)
    ensures MatchPrefix(CompileAllM(meta, ps), got, d, idx).Some?
    ensures var d1 := MatchPrefix(CompileAllM(meta, ps), got, d, idx).value; Agrees(d1, s) && PlainEnv(d1)
    decreases |ps|
  {
    hide Match, CompileM, Instance, Agrees, PlainEnv, Naming, ListOf;
    if ps != [] {
      ListParts(t, ps);
      ListParts(t, ps[1..]);
      var ms := CompileAllM(meta, ps);
      assert ms[1..] == CompileAllM(meta, ps[1..]);
      assert got[idx] == got[idx..idx + |ps|][0] == Instance(meta, ps[0], s);
      InstanceMatches(meta, ps[0], s, d);
      assert got[idx + 1..idx + 1 + |ps[1..]|] == got[idx..idx + |ps|][1..] == Instances(meta, ps[1..], s);
      PrefixOfInstances(meta, t, ps[1..], s, got, Match(ms[0], got[idx], d).value, idx + 1);
    }
  }

  /** A run of instances is matched in place and binds its metavariables to their names. */
  lemma {:induction false} InstancesMatch(
      meta: Meta, t: Type, ps: seq<Value>, s: Subst, got: seq<Value>, d: Env, idx: nat, bound: set<string>)
    requires ListOf(t, ps) && Naming(meta, s) && HasNames(d, s, bound)
    requires idx + |ps| <= |got| && got[idx..idx + |ps|] == Instances(meta, ps, s)
    ensures MatchPrefix(CompileAllM(meta, ps), got, d, idx).Some?
    ensures HasNames(MatchPrefix(CompileAllM(meta, ps), got, d, idx).value, s, bound + Mentioned(meta, ps))
  {
    hide MatchPrefix, CompileAllM, Instances, ListOf, Naming, PlainEnv, Agrees;
    PrefixOfInstances(meta, t, ps, s, got, d, idx);
    var want := CompileAllM(meta, ps);
    var d1 := MatchPrefix(want, got, d, idx).value;
    forall x ensures Bound(d1, x).Some? <==> x in bound + Mentioned(meta, ps) {
      if x in Mentioned(meta, ps) {
        PrefixBinds(want, got, d, idx, x);
      } else {
        PrefixKeeps(want, got, d, idx, MetaKey(x));
      }
    }
  }

  lemma {:induction false} RunKeepsNames(d: Env, s: Subst, bound: set<string>, pos: Pos, run: seq<Value>)
    requires HasNames(d, s, bound)
    ensures HasNames(With(d, DotsKey(pos), Skipped(run)), s, bound)
  {
    assert forall x :: Bound(With(d, DotsKey(pos), Skipped(run)), x) == Bound(d, x);
  }

  /** The search finds instances at once where they lie. */
  lemma {:induction false} InstancesAreFound(
      meta: Meta, t: Type, ps: seq<Value>, s: Subst, pos: Pos, got: seq<Value>, d: Env, idx: nat, bound: set<string>)
    requires ListOf(t, ps) && ps != [] && Naming(meta, s) && HasNames(d, s, bound)
    requires idx + |ps| <= |got| && got[idx..idx + |ps|] == Instances(meta, ps, s)
    ensures var r := FindSection(pos, CompileAllM(meta, ps), got, d, idx, idx);
      r.Some? && r.value.0 == idx + |ps| && HasNames(r.value.1, s, bound + Mentioned(meta, ps))
  {
    hide MatchPrefix, CompileAllM, Instances, ListOf, Naming, HasNames, Mentioned;
    RunKeepsNames(d, s, bound, pos, got[idx..idx]);
    InstancesMatch(meta, t, ps, s, got, With(d, DotsKey(pos), Skipped(got[idx..idx])), idx, bound);
  }

  // ------------------------------------------------- a list that the search does not find

  function Flat(meta: Meta, pieces: seq<seq<Value>>, s: Subst): seq<Value> {
    if pieces == [] then [] else Instances(meta, pieces[0], s) + Flat(meta, pieces[1..], s)
  }

  /** All metavariables stand for the same name. */
  ghost function AllAre(names: set<string>, b: Value): Subst {
    map y | y in names :: b
  }

  /** x is not bound yet, and the first piece shares it with a later one. */
  ghost predicate FirstShares(meta: Meta, pieces: seq<seq<Value>>, bound: set<string>, x: string) {
    && pieces != [] && x in Mentioned(meta, pieces[0]) && x !in bound
    && exists j | 0 < j < |pieces| :: x in Mentioned(meta, pieces[j])
  }

  ghost function Shared(meta: Meta, pieces: seq<seq<Value>>, bound: set<string>): (x: string)
    requires exists x :: FirstShares(meta, pieces, bound, x)
    ensures FirstShares(meta, pieces, bound, x)
  {
    var x :| FirstShares(meta, pieces, bound, x);
    x
  }

  lemma {:induction false} LaterShares(meta: Meta, pieces: seq<seq<Value>>, bound: set<string>)
    requires !Separate(meta, pieces, bound) && forall x :: !FirstShares(meta, pieces, bound, x)
    ensures pieces != [] && !Separate(meta, pieces[1..], bound + Mentioned(meta, pieces[0]))
  {
    var i, j, x :| 0 <= i < j < |pieces| && x in Mentioned(meta, pieces[i]) && x in Mentioned(meta, pieces[j]) && x !in bound;
    hide Mentioned;
    assert !FirstShares(meta, pieces, bound, x);
    assert x !in Mentioned(meta, pieces[0]);
    var rest, bound' := pieces[1..], bound + Mentioned(meta, pieces[0]);
    assert rest[i - 1] == pieces[i] && rest[j - 1] == pieces[j] && x !in bound';
  }

  /**
   * Instances of all pieces, with the first piece that shares an unbound metavariable in front once more, standing for
   * another name a.
   */
  ghost function Decoy(meta: Meta, pieces: seq<seq<Value>>, bound: set<string>, names: set<string>, a: Value, b: Value): seq<Value>
    requires !Separate(meta, pieces, bound)
    decreases |pieces|
  {
    if exists x :: FirstShares(meta, pieces, bound, x) then
      Instances(meta, pieces[0], AllAre(names, b)[Shared(meta, pieces, bound) := a]) + Flat(meta, pieces, AllAre(names, b))
    else
      LaterShares(meta, pieces, bound);
      Instances(meta, pieces[0], AllAre(names, b))
      + Decoy(meta, pieces[1..], bound + Mentioned(meta, pieces[0]), names, a, b)
  }

  /** The names a and b are different, and a is new. */
  ghost predicate Fresh(meta: Meta, pieces: seq<seq<Value>>, names: set<string>, a: string, b: string) {
    && a != b && (forall y | y in meta :: y in names)
    && forall i, k | 0 <= i < |pieces| && 0 <= k < |pieces[i]| :: !Tells(pieces[i][k], a)
  }

  lemma {:induction false} FreshTail(meta: Meta, pieces: seq<seq<Value>>, names: set<string>, a: string, b: string)
    requires Fresh(meta, pieces, names, a, b) && pieces != []
    ensures Fresh(meta, pieces[1..], names, a, b)
    ensures forall k | 0 <= k < |pieces[0]| :: !Tells(pieces[0][k], a)
  {
    hide Tells;
    assert forall i | 0 <= i < |pieces[1..]| :: pieces[1..][i] == pieces[i + 1];
  }

  lemma {:induction false} NamesAreNaming(meta: Meta, names: set<string>, x: string, a: string, b: string)
    requires forall y | y in meta :: y in names
    ensures Naming(meta, AllAre(names, Name(b).elem)) && Naming(meta, AllAre(names, Name(b).elem)[x := Name(a).elem])
    ensures a != b ==> !SomeTells(AllAre(names, Name(b).elem), a)
  {
    NameIsPlain(a);
    NameIsPlain(b);
    NameTells(b, a);
    hide Name, Plain, Tells;
  }

  lemma {:induction false} OtherName(d: Env, names: set<string>, bound: set<string>, x: string, a: Value, b: Value)
    requires HasNames(d, AllAre(names, b), bound) && x !in bound && Plain(a)
    ensures HasNames(d, AllAre(names, b)[x := a], bound)
  {
    hide Plain, Eq;
    forall y | Bound(d, y).Some?
      ensures var s := AllAre(names, b)[x := a]; y in s && Plain(s[y]) && Eq(Bound(d, y).value, s[y])
    {
      assert y in bound && y != x;
    }
  }

  /** Instances of ordinary code are ordinary code. */
  lemma {:induction false} InstancesAreList(meta: Meta, t: Type, ps: seq<Value>, s: Subst)
    requires ListOf(t, ps) && Naming(meta, s)
    ensures ListOf(t, Instances(meta, ps, s))
  {
    hide Instance, Naming, Plain, ListOf, DotsItem;
    ListParts(t, ps);
    forall i | 0 <= i < |ps|
      ensures Plain(Instance(meta, ps[i], s)) && TypeOf(Instance(meta, ps[i], s)) == t && DotsItem(Instance(meta, ps[i], s)).None?
    {
      InstanceSolves(meta, ps[i], s);
    }
    ListParts(t, Instances(meta, ps, s));
  }

  lemma {:induction false} ListConcat(t: Type, vs: seq<Value>, ws: seq<Value>)
    requires ListOf(t, vs) && ListOf(t, ws)
    ensures ListOf(t, vs + ws)
  {
    hide ListOf, Plain, DotsItem;
    ListParts(t, vs);
    ListParts(t, ws);
    ListParts(t, vs + ws);
  }

  lemma {:induction false} FlatIsList(meta: Meta, t: Type, pieces: seq<seq<Value>>, s: Subst)
    requires ListsOf(t, pieces) && Naming(meta, s)
    ensures ListOf(t, Flat(meta, pieces, s))
    decreases |pieces|
  {
    hide ListOf, Naming, Instances;
    if pieces == [] {
      ListParts(t, []);
    } else {
      InstancesAreList(meta, t, pieces[0], s);
      FlatIsList(meta, t, pieces[1..], s);
      ListConcat(t, Instances(meta, pieces[0], s), Flat(meta, pieces[1..], s));
    }
  }

  lemma {:induction false} ShareNotEmpty(meta: Meta, pieces: seq<seq<Value>>, bound: set<string>, x: string)
    requires FirstShares(meta, pieces, bound, x)
    ensures pieces != [] && x !in bound && x in Mentioned(meta, pieces[0])
    ensures exists j | 0 <= j < |pieces[1..]| :: x in Mentioned(meta, pieces[1..][j])
  {
    var j :| 0 < j < |pieces| && x in Mentioned(meta, pieces[j]);
    assert pieces[1..][j - 1] == pieces[j];
  }

  lemma {:induction false} DecoyIsList(
      meta: Meta, t: Type, pieces: seq<seq<Value>>, bound: set<string>, names: set<string>, a: string, b: string)
    requires ListsOf(t, pieces) && !Separate(meta, pieces, bound) && forall y | y in meta :: y in names
    ensures ListOf(t, Decoy(meta, pieces, bound, names, Name(a).elem, Name(b).elem))
    decreases |pieces|
  {
    hide ListOf, Naming, Instances, Flat, Separate, FirstShares, Name, AllAre;
    var s := AllAre(names, Name(b).elem);
    NamesAreNaming(meta, names, "", a, b);
    if exists x :: FirstShares(meta, pieces, bound, x) {
      var x := Shared(meta, pieces, bound);
      NamesAreNaming(meta, names, x, a, b);
      assert pieces != [] by { assert FirstShares(meta, pieces, bound, x); ShareNotEmpty(meta, pieces, bound, x); }
      InstancesAreList(meta, t, pieces[0], s[x := Name(a).elem]);
      FlatIsList(meta, t, pieces, s);
      ListConcat(t, Instances(meta, pieces[0], s[x := Name(a).elem]), Flat(meta, pieces, s));
    } else {
      LaterShares(meta, pieces, bound);
      InstancesAreList(meta, t, pieces[0], s);
      DecoyIsList(meta, t, pieces[1..], bound + Mentioned(meta, pieces[0]), names, a, b);
      ListConcat(t, Instances(meta, pieces[0], s),
                 Decoy(meta, pieces[1..], bound + Mentioned(meta, pieces[0]), names, Name(a).elem, Name(b).elem));
    }
  }

  lemma {:induction false} CutAt(got: seq<Value>, idx: nat, vs: seq<Value>, ws: seq<Value>)
    requires idx <= |got| && got[idx..] == vs + ws
    ensures idx + |vs| <= |got| && got[idx..idx + |vs|] == vs && got[idx + |vs|..] == ws
  {
    assert got[idx..][..|vs|] == vs && got[idx..][|vs|..] == ws;
    assert got[idx..idx + |vs|] == got[idx..][..|vs|];
  }

  lemma {:induction false} FlatIsPlaced(
      meta: Meta, t: Type, pieces: seq<seq<Value>>, s: Subst, got: seq<Value>, d: Env, idx: nat, bound: set<string>)
    returns (starts: seq<nat>)
    requires ListsOf(t, pieces) && Naming(meta, s) && HasNames(d, s, bound)
    requires idx <= |got| && got[idx..] == Flat(meta, pieces, s)
    ensures Placed(Compiled(meta, pieces), got, idx, starts, d)
    decreases |pieces|
  {
    hide ListOf, Naming, Instances, HasNames, MatchPrefix, CompileAllM, Mentioned, Compiled;
    if pieces == [] {
      starts := [];
    } else {
      CompiledTail(meta, pieces);
      CutAt(got, idx, Instances(meta, pieces[0], s), Flat(meta, pieces[1..], s));
      InstancesMatch(meta, t, pieces[0], s, got, d, idx, bound);
      var d1 := MatchPrefix(CompileAllM(meta, pieces[0]), got, d, idx).value;
      var rest := FlatIsPlaced(meta, t, pieces[1..], s, got, d1, idx + |pieces[0]|, bound + Mentioned(meta, pieces[0]));
      starts := [idx] + rest;
      assert starts[1..] == rest;
    }
  }

  /** The pieces have a placement in the list: the decoy is passed over. */
  lemma {:induction false} DecoyIsPlaceable(
      meta: Meta, t: Type, pieces: seq<seq<Value>>, bound: set<string>, names: set<string>, a: string, b: string,
      got: seq<Value>, d: Env, idx: nat)
    returns (starts: seq<nat>)
    requires ListsOf(t, pieces) && !Separate(meta, pieces, bound) && forall y | y in meta :: y in names
    requires HasNames(d, AllAre(names, Name(b).elem), bound)
    requires idx <= |got| && got[idx..] == Decoy(meta, pieces, bound, names, Name(a).elem, Name(b).elem)
    ensures Placed(Compiled(meta, pieces), got, idx, starts, d)
    decreases |pieces|
  {
    hide ListOf, Naming, Instances, HasNames, MatchPrefix, CompileAllM, Mentioned, Compiled, Separate, FirstShares, Flat, Name, AllAre;
    var s := AllAre(names, Name(b).elem);
    NamesAreNaming(meta, names, "", a, b);
    if exists x :: FirstShares(meta, pieces, bound, x) {
      var x := Shared(meta, pieces, bound);
      ShareNotEmpty(meta, pieces, bound, x);
      CutAt(got, idx, Instances(meta, pieces[0], s[x := Name(a).elem]), Flat(meta, pieces, s));
      starts := FlatIsPlaced(meta, t, pieces, s, got, d, idx + |pieces[0]|, bound);
    } else {
      LaterShares(meta, pieces, bound);
      CompiledTail(meta, pieces);
      var bound' := bound + Mentioned(meta, pieces[0]);
      CutAt(got, idx, Instances(meta, pieces[0], s), Decoy(meta, pieces[1..], bound', names, Name(a).elem, Name(b).elem));
      InstancesMatch(meta, t, pieces[0], s, got, d, idx, bound);
      var d1 := MatchPrefix(CompileAllM(meta, pieces[0]), got, d, idx).value;
      var rest := DecoyIsPlaceable(meta, t, pieces[1..], bound', names, a, b, got, d1, idx + |pieces[0]|);
      starts := [idx] + rest;
      assert starts[1..] == rest;
    }
  }

  /** No instance that stands for b tells a. */
  lemma {:induction false} FlatTellsNot(
      meta: Meta, t: Type, pieces: seq<seq<Value>>, names: set<string>, a: string, b: string, k: nat)
    requires ListsOf(t, pieces) && Fresh(meta, pieces, names, a, b) && k < |Flat(meta, pieces, AllAre(names, Name(b).elem))|
    ensures !Tells(Flat(meta, pieces, AllAre(names, Name(b).elem))[k], a)
    decreases |pieces|
  {
    hide ListOf, Naming, Instance, Tells, Name, Plain, AllAre, SomeTells;
    var s := AllAre(names, Name(b).elem);
    NamesAreNaming(meta, names, "", a, b);
    FreshTail(meta, pieces, names, a, b);
    if k < |pieces[0]| {
      ListParts(t, pieces[0]);
      if Tells(Instance(meta, pieces[0][k], s), a) {
        InstanceTells(meta, pieces[0][k], s, a);
      }
    } else {
      FlatTellsNot(meta, t, pieces[1..], names, a, b, k - |pieces[0]|);
    }
  }

  /** Once x stands for a, nothing that mentions x is found among instances that stand for b. */
  lemma {:induction false} NothingBehindDecoy(
      meta: Meta, t: Type, pieces: seq<seq<Value>>, names: set<string>, a: string, b: string, x: string,
      dots: seq<Pos>, got: seq<Value>, d: Env, idx: nat)
    requires ListsOf(t, pieces) && pieces != [] && Fresh(meta, pieces, names, a, b) && ListOf(t, got)
    requires exists j | 0 <= j < |pieces[1..]| :: x in Mentioned(meta, pieces[1..][j])
    requires PlainEnv(d) && Bound(d, x).Some? && Eq(Bound(d, x).value, Name(a).elem) && |dots| == |pieces| - 1
    requires idx <= |got| && got[idx..] == Flat(meta, pieces, AllAre(names, Name(b).elem))
    ensures FindSections(Compiled(meta, pieces[1..]), dots, got, d, idx).None?
  {
    hide ListOf, Tells, Name, AllAre, Eq, Compiled, FindSections, PlainEnv, Mentioned, Fresh, Flat;
    if FindSections(Compiled(meta, pieces[1..]), dots, got, d, idx).Some? {
      EqSym(Bound(d, x).value, Name(a).elem);
      NameTells(a, a);
      EqTells(Name(a).elem, Bound(d, x).value, a);
      SectionsTell(meta, t, pieces[1..], dots, got, d, idx, x, a);
      var k :| idx <= k < |got| && Tells(got[k], a);
      assert got[k] == got[idx..][k - idx];
      FlatTellsNot(meta, t, pieces, names, a, b, k - idx);
      assert false;
    }
  }

  lemma {:induction false} HasName(d: Env, s: Subst, bound: set<string>, x: string)
    requires HasNames(d, s, bound) && x in bound
    ensures PlainEnv(d) && Bound(d, x).Some? && x in s && Eq(Bound(d, x).value, s[x])
  {
  }

  /** The first piece is the one that is doubled. */
  lemma {:induction false} FirstDecoyIsTaken(
      meta: Meta, t: Type, pieces: seq<seq<Value>>, bound: set<string>, names: set<string>, a: string, b: string,
      dots: seq<Pos>, got: seq<Value>, d: Env, idx: nat)
    requires ListsOf(t, pieces) && !Separate(meta, pieces, bound) && Fresh(meta, pieces, names, a, b) && ListOf(t, got)
    requires HasNames(d, AllAre(names, Name(b).elem), bound) && |dots| == |pieces|
    requires idx <= |got| && got[idx..] == Decoy(meta, pieces, bound, names, Name(a).elem, Name(b).elem)
    requires exists x :: FirstShares(meta, pieces, bound, x)
    ensures FindSections(Compiled(meta, pieces), dots, got, d, idx).None?
  {
    hide ListOf, Naming, Instances, FindSection, CompileAllM, Mentioned, Compiled, Separate, FirstShares, Flat, Name, AllAre, Plain, Eq;
    hide HasNames, PlainEnv;
    var s := AllAre(names, Name(b).elem);
    var x := Shared(meta, pieces, bound);
    var s' := s[x := Name(a).elem];
    ShareNotEmpty(meta, pieces, bound, x);
    CompiledTail(meta, pieces);
    NamesAreNaming(meta, names, x, a, b);
    NameIsPlain(a);
    OtherName(d, names, bound, x, Name(a).elem, Name(b).elem);
    CutAt(got, idx, Instances(meta, pieces[0], s'), Flat(meta, pieces, s));
    InstancesAreFound(meta, t, pieces[0], s', dots[0], got, d, idx, bound);
    var d1 := FindSection(dots[0], CompileAllM(meta, pieces[0]), got, d, idx, idx).value.1;
    HasName(d1, s', bound + Mentioned(meta, pieces[0]), x);
    NothingBehindDecoy(meta, t, pieces, names, a, b, x, dots[1..], got, d1, idx + |pieces[0]|);
  }

  /** The search takes the decoy and fails behind it. */
  lemma {:induction false} DecoyIsTaken(
      meta: Meta, t: Type, pieces: seq<seq<Value>>, bound: set<string>, names: set<string>, a: string, b: string,
      dots: seq<Pos>, got: seq<Value>, d: Env, idx: nat)
    requires ListsOf(t, pieces) && !Separate(meta, pieces, bound) && Fresh(meta, pieces, names, a, b) && ListOf(t, got)
    requires HasNames(d, AllAre(names, Name(b).elem), bound) && |dots| == |pieces|
    requires idx <= |got| && got[idx..] == Decoy(meta, pieces, bound, names, Name(a).elem, Name(b).elem)
    ensures FindSections(Compiled(meta, pieces), dots, got, d, idx).None?
    decreases |pieces|
  {
    hide ListOf, Naming, Instances, FindSection, CompileAllM, Mentioned, Compiled, Separate, FirstShares, Flat, Name, AllAre, Plain, Eq;
    hide HasNames, PlainEnv;
    var s := AllAre(names, Name(b).elem);
    if exists x :: FirstShares(meta, pieces, bound, x) {
      FirstDecoyIsTaken(meta, t, pieces, bound, names, a, b, dots, got, d, idx);
    } else {
      LaterShares(meta, pieces, bound);
      CompiledTail(meta, pieces);
      FreshTail(meta, pieces, names, a, b);
      NamesAreNaming(meta, names, "", a, b);
      var bound' := bound + Mentioned(meta, pieces[0]);
      CutAt(got, idx, Instances(meta, pieces[0], s), Decoy(meta, pieces[1..], bound', names, Name(a).elem, Name(b).elem));
      InstancesAreFound(meta, t, pieces[0], s, dots[0], got, d, idx, bound);
      var d1 := FindSection(dots[0], CompileAllM(meta, pieces[0]), got, d, idx, idx).value.1;
      DecoyIsTaken(meta, t, pieces[1..], bound', names, a, b, dots[1..], got, d1, idx + |pieces[0]|);
    }
  }

  // ------------------------------------------------------------------- the exact condition

  /** An environment in which the given names stand for b. */
  ghost function EnvOf(bound: set<string>, b: Value): Env {
    if bound == {} then New
    else
      var x :| x in bound;
      With(EnvOf(bound - {x}, b), MetaKey(x), Captured(b))
  }

  lemma {:induction false} EnvOfBinds(bound: set<string>, b: Value, x: string)
    ensures Bound(EnvOf(bound, b), x) == if x in bound then Some(b) else None
  {
    if bound != {} {
      var y :| y in bound && EnvOf(bound, b) == With(EnvOf(bound - {y}, b), MetaKey(y), Captured(b));
      EnvOfBinds(bound - {y}, b, x);
    }
  }

  lemma {:induction false} EnvOfHasNames(bound: set<string>, names: set<string>, b: string)
    requires bound <= names
    ensures HasNames(EnvOf(bound, Name(b).elem), AllAre(names, Name(b).elem), bound)
  {
    NameIsPlain(b);
    EqRefl(Name(b).elem);
    assert IsExpression(TypeOf(Name(b).elem));
    hide Name, Plain, Eq, EnvOf;
    forall x ensures Bound(EnvOf(bound, Name(b).elem), x) == if x in bound then Some(Name(b).elem) else None {
      EnvOfBinds(bound, Name(b).elem, x);
    }
  }

  ghost function LongestIn(pieces: seq<seq<Value>>): nat {
    if pieces == [] then 0 else
      var n, m := LongestAll(pieces[0]), LongestIn(pieces[1..]);
      if n < m then m else n
  }

  lemma {:induction false} LongIsFresh(pieces: seq<seq<Value>>, i: nat, k: nat, a: string)
    requires i < |pieces| && k < |pieces[i]| && |a| > LongestIn(pieces)
    ensures !Tells(pieces[i][k], a)
    decreases |pieces|
  {
    hide Tells;
    if i == 0 {
      if Tells(pieces[0][k], a) { TextsAreShort(pieces[0], a); }
    } else {
      LongIsFresh(pieces[1..], i - 1, k, a);
    }
  }

  ghost predicate MissesList(meta: Meta, first: seq<Value>, middle: seq<seq<Value>>, got: seq<Value>, d: Env) {
    && PlaceableBehind(CompileAllM(meta, first), Compiled(meta, middle), got, d)
    && forall dots: seq<Pos> | |dots| == |middle| + 1 ::
         MatchElided([Section(CompileAllM(meta, first))] + Compiled(meta, middle) + [Section([])], dots, got, d).None?
  }

  lemma {:induction false} MissedElided(
      first: seq<Matcher>, middle: seq<Section<Matcher>>, dots: seq<Pos>, got: seq<Value>, d: Env)
    requires |dots| == |middle| + 1 && MatchPrefix(first, got, d, 0).Some?
    requires FindSections(middle, dots[..|middle|], got, MatchPrefix(first, got, d, 0).value, |first|).None?
    ensures MatchElided([Section(first)] + middle + [Section([])], dots, got, d).None?
  {
    hide MatchPrefix, FindSections;
    var sections := [Section(first)] + middle + [Section([])];
    assert sections[0] == Section(first) && sections[1..] == middle + [Section([])];
    FindSectionsInTwo(middle, [Section([])], dots, got, MatchPrefix(first, got, d, 0).value, |first|);
  }

  /** If two sections share a metavariable that nothing before them binds, the search misses some list. */
  lemma {:induction false} SharedIsMissed(meta: Meta, t: Type, first: seq<Value>, middle: seq<seq<Value>>, before: set<string>)
    returns (got: seq<Value>, d: Env)
    requires ListOf(t, first) && ListsOf(t, middle) && !Separate(meta, middle, before + Mentioned(meta, first))
    ensures Binds(d, before) && PlainEnv(d) && ListOf(t, got) && MissesList(meta, first, middle, got, d)
  {
    hide ListOf, Name, Decoy, Instances, AllAre, Separate, Naming, Compiled, CompileAllM, Mentioned, Plain, MatchPrefix, Tells;
    var n := LongestIn(middle);
    var a, b := seq(n + 2, i => 'a'), "b";
    var names, bound := meta.Keys + before, before + Mentioned(meta, first);
    forall i, k | 0 <= i < |middle| && 0 <= k < |middle[i]| ensures !Tells(middle[i][k], a) { LongIsFresh(middle, i, k, a); }
    var s, tail := AllAre(names, Name(b).elem), Decoy(meta, middle, bound, names, Name(a).elem, Name(b).elem);
    d, got := EnvOf(before, Name(b).elem), Instances(meta, first, s) + tail;
    EnvOfHasNames(before, names, b);
    NamesAreNaming(meta, names, "", a, b);
    InstancesAreList(meta, t, first, s);
    DecoyIsList(meta, t, middle, bound, names, a, b);
    ListConcat(t, Instances(meta, first, s), tail);
    assert got[0..] == got;
    CutAt(got, 0, Instances(meta, first, s), tail);
    InstancesMatch(meta, t, first, s, got, d, 0, before);
    var d1 := MatchPrefix(CompileAllM(meta, first), got, d, 0).value;
    var starts := DecoyIsPlaceable(meta, t, middle, bound, names, a, b, got, d1, |first|);
    forall dots: seq<Pos> | |dots| == |middle| + 1
      ensures MatchElided([Section(CompileAllM(meta, first))] + Compiled(meta, middle) + [Section([])], dots, got, d).None?
    {
      DecoyIsTaken(meta, t, middle, bound, names, a, b, dots[..|middle|], got, d1, |first|);
      MissedElided(CompileAllM(meta, first), Compiled(meta, middle), dots, got, d);
    }
  }

  lemma {:induction false} SeparateIsIndependent(
      meta: Meta, first: seq<Value>, middle: seq<seq<Value>>, before: set<string>, d: Env)
    requires Separate(meta, middle, before + Mentioned(meta, first)) && Binds(d, before)
    ensures IndependentBehind(CompileAllM(meta, first), Compiled(meta, middle), d)
  {
    hide CompileAllM;
    var sections := Compiled(meta, middle);
    forall i, j, x | 0 <= i < j < |sections| && x in VarsAllM(sections[i].items) && x in VarsAllM(sections[j].items)
      ensures x in VarsAllM(CompileAllM(meta, first)) || Bound(d, x).Some?
    {
      assert x in Mentioned(meta, middle[i]) && x in Mentioned(meta, middle[j]);
      assert x in before + Mentioned(meta, first);
    }
  }

  /** Leftmost search finds the sections of the pattern in the list whenever they can be placed there. */
  ghost predicate Finds(meta: Meta, first: seq<Value>, middle: seq<seq<Value>>, dots: seq<Pos>, got: seq<Value>, d: Env)
    requires |dots| == |middle| + 1
  {
    MatchElided([Section(CompileAllM(meta, first))] + Compiled(meta, middle) + [Section([])], dots, got, d).Some? <==>
      PlaceableBehind(CompileAllM(meta, first), Compiled(meta, middle), got, d)
  }

  /**
   * Exactly when leftmost search is complete. For a pattern list of ordinary code with `...`s between its pieces and at its
   * end, and given which names are bound before it: the search agrees with the placements in every list and every such
   * environment if and only if no two pieces behind the first `...` share a metavariable, except for names that are bound
   * before or occur in front of the first `...`.
   */
  lemma {:induction false} SearchIsCompleteExactly(
      meta: Meta, t: Type, first: seq<Value>, middle: seq<seq<Value>>, before: set<string>)
    requires ListOf(t, first) && ListsOf(t, middle)
    ensures Separate(meta, middle, before + Mentioned(meta, first)) <==>
      forall d: Env, dots: seq<Pos>, got | Binds(d, before) && PlainEnv(d) && ListOf(t, got) && |dots| == |middle| + 1 ::
        Finds(meta, first, middle, dots, got, d)
  {
    hide ListOf, MatchElided, PlaceableBehind, PlainEnv, CompileAllM, IndependentBehind;
    if Separate(meta, middle, before + Mentioned(meta, first)) {
      forall d: Env, dots: seq<Pos>, got | Binds(d, before) && |dots| == |middle| + 1
        ensures Finds(meta, first, middle, dots, got, d)
      {
        SeparateIsIndependent(meta, first, middle, before, d);
        ElisionIsComplete(CompileAllM(meta, first), Compiled(meta, middle), dots, got, d);
      }
    } else {
      var got, d := SharedIsMissed(meta, t, first, middle, before);
      var dots: seq<Pos> := seq(|middle| + 1, i => NoPos);
      assert !Finds(meta, first, middle, dots, got, d);
    }
  }
}
