/**
 * Go syntax trees as the engine sees them through reflection: values tagged with their Go type
 * (internal/goast/types.go). A struct type carries the types of its fields.
 */
module Tree {
  import opened Wrappers

  /** A token position together with the line and column that the file set reports for it. */
  datatype Pos = NoPos | At(offset: nat, line: nat, column: nat) {
    predicate IsValid() {
      At?
    }

    function Line(): nat {
      if At? then line else 0
    }

    function Column(): nat {
      if At? then column else 0
    }
  }

  datatype Kind = StringK | TokenK | BoolK | IntK

  datatype Type =
    | PosT
    | BasicT(kind: Kind)
    | PtrT(elem: Type)
    | SliceT(elem: Type)
    | IfaceT(name: nat, isNode: bool)
    | StructT(name: nat, isExpr: bool, isNode: bool, layout: seq<Type>)

  datatype Lit = Text(s: string) | Number(n: int)

  datatype Value =
    | Nil(t: Type)  // a nil pointer, interface or slice
    | PosV(pos: Pos)
    | Prim(t: Type, lit: Lit)
    | Ptr(t: Type, elem: Value)
    | Iface(t: Type, elem: Value)
    | Slice(t: Type, items: seq<Value>)
    | Struct(t: Type, fields: seq<Value>)

  function TypeOf(v: Value): Type {
    if v.PosV? then PosT else v.t
  }

  // ---------------------------------------------------------------- go/ast

  const EXPR := IfaceT(0, true)
  const STMT := IfaceT(1, true)
  const STRING := BasicT(StringK)
  const TOKEN := BasicT(TokenK)

  // Objects, comment groups and scopes are leaves here: all their content is one field.
  const OBJECT_PTR := PtrT(StructT(0, false, false, [STRING]))
  const COMMENT_GROUP_PTR := PtrT(StructT(1, false, true, [STRING]))
  const SCOPE_PTR := PtrT(StructT(2, false, false, [STRING]))
  const IDENT := StructT(3, true, true, [PosT, STRING, OBJECT_PTR])
  const IDENT_PTR := PtrT(IDENT)
  const BASIC_LIT := StructT(4, true, true, [PosT, TOKEN, STRING])
  const DOTS := StructT(5, true, true, [EXPR, PosT])  // pgo.Dots
  const EXPR_STMT := StructT(6, false, true, [EXPR])
  const FIELD := StructT(7, false, true, [COMMENT_GROUP_PTR, SliceT(IDENT_PTR), EXPR, PtrT(BASIC_LIT), COMMENT_GROUP_PTR])
  const STMT_SLICE := SliceT(STMT)
  const BLOCK_STMT := StructT(8, false, true, [PosT, STMT_SLICE, PosT])
  const EXPR_SLICE := SliceT(EXPR)
  const CASE_CLAUSE := StructT(9, false, true, [PosT, EXPR_SLICE, PosT, STMT_SLICE])
  const COMM_CLAUSE := StructT(10, false, true, [PosT, STMT, PosT, STMT_SLICE])
  const FOR_STMT := StructT(11, false, true, [PosT, STMT, EXPR, STMT, PtrT(BLOCK_STMT)])
  const RANGE_STMT := StructT(12, false, true, [PosT, EXPR, EXPR, PosT, TOKEN, PosT, EXPR, PtrT(BLOCK_STMT)])
  const FOR_STMT_PTR := PtrT(FOR_STMT)
  const FIELD_PTR_SLICE := SliceT(PtrT(FIELD))

  /** Pointers that are never followed: objects form cycles, and comments do not take part in matching. */
  predicate Cut(t: Type) {
    t == OBJECT_PTR || t == COMMENT_GROUP_PTR
  }

  /** The slice types in which `...` may stand for a run of items. */
  predicate Elidable(t: Type) {
    t == STMT_SLICE || t == EXPR_SLICE || t == FIELD_PTR_SLICE
  }

  function Items(v: Value): seq<Value> {
    if v.Slice? then v.items else []
  }

  /**
   * The value is one that the Go type system admits. Interfaces hold non-nil pointers to structs, as every
   * expression, statement, declaration and specification of go/ast is one.
   */
  ghost predicate WellTyped(v: Value) {
    match v
    case Nil(t) => t.PtrT? || t.IfaceT? || t.SliceT?
    case PosV(_) => true
    case Prim(t, lit) => t.BasicT? && (t == STRING <==> lit.Text?)
    case Ptr(t, e) => t.PtrT? && e.Struct? && TypeOf(e) == t.elem && WellTyped(e)
    case Iface(t, e) => t.IfaceT? && e.Ptr? && !Cut(e.t) && WellTyped(e)
    case Slice(t, items) =>
      t.SliceT? && forall i | 0 <= i < |items| :: TypeOf(items[i]) == t.elem && WellTyped(items[i])
    case Struct(t, fields) =>
      && t.StructT? && |fields| == |t.layout|
      && forall i | 0 <= i < |fields| :: TypeOf(fields[i]) == t.layout[i] && WellTyped(fields[i])
  }

  predicate NilPtr(v: Value) {
    v.Nil? && v.t.PtrT? && !Cut(v.t)
  }

  /** Same Go type; which type a nil pointer has does not matter. */
  predicate SameType(v: Value, w: Value) {
    TypeOf(v) == TypeOf(w) || (NilPtr(v) && NilPtr(w))
  }

  /**
   * Equality up to what the engine does not compare: positions count by validity only, comments and objects
   * are ignored, and a nil slice is the same as an empty one.
   */
  ghost predicate Eq(v: Value, w: Value)
    decreases v
  {
    && SameType(v, w)
    && (Cut(TypeOf(v)) ||
        match v
        case Nil(t) => w.Nil? || (w.Slice? && t.SliceT? && w.items == [])
        case PosV(p) => w.PosV? && (p.IsValid() <==> w.pos.IsValid())
        case Prim(_, lit) => w.Prim? && lit == w.lit
        case Ptr(_, e) => w.Ptr? && Eq(e, w.elem)
        case Iface(_, e) => w.Iface? && Eq(e, w.elem)
        case Slice(t, items) => (w.Slice? || (w.Nil? && t.SliceT?)) && EqAll(items, Items(w))
        case Struct(_, fields) => w.Struct? && EqAll(fields, w.fields))
  }

  ghost predicate EqAll(vs: seq<Value>, ws: seq<Value>)
    decreases vs
  {
    |vs| == |ws| && forall i | 0 <= i < |vs| :: Eq(vs[i], ws[i])
  }

  lemma {:induction false} EqRefl(v: Value)
    ensures Eq(v, v)
  {
    match v
    case Ptr(_, e) => EqRefl(e);
    case Iface(_, e) => EqRefl(e);
    case Slice(_, items) => forall i | 0 <= i < |items| ensures Eq(items[i], items[i]) { EqRefl(items[i]); }
    case Struct(_, fields) => forall i | 0 <= i < |fields| ensures Eq(fields[i], fields[i]) { EqRefl(fields[i]); }
    case _ =>
  }

  lemma {:induction false} EqTrans(u: Value, v: Value, w: Value)
    requires Eq(u, v) && Eq(v, w)
    ensures Eq(u, w)
    decreases u
  {
    if !Cut(TypeOf(u)) {
      match u
      case Ptr(_, e) => EqTrans(e, v.elem, w.elem);
      case Iface(_, e) => EqTrans(e, v.elem, w.elem);
      case Slice(_, items) =>
        forall i | 0 <= i < |items| ensures Eq(items[i], Items(w)[i]) {
          EqTrans(items[i], Items(v)[i], Items(w)[i]);
        }
      case Struct(_, fields) =>
        forall i | 0 <= i < |fields| ensures Eq(fields[i], w.fields[i]) {
          EqTrans(fields[i], v.fields[i], w.fields[i]);
        }
      case _ =>
    }
  }

  lemma {:induction false} EqSym(v: Value, w: Value)
    requires Eq(v, w)
    ensures Eq(w, v)
    decreases v
  {
    if !Cut(TypeOf(v)) {
      match v
      case Ptr(_, e) => EqSym(e, w.elem);
      case Iface(_, e) => EqSym(e, w.elem);
      case Slice(_, items) =>
        forall i | 0 <= i < |items| ensures Eq(Items(w)[i], items[i]) { EqSym(items[i], Items(w)[i]); }
      case Struct(_, fields) =>
        forall i | 0 <= i < |fields| ensures Eq(w.fields[i], fields[i]) { EqSym(fields[i], w.fields[i]); }
      case _ =>
    }
  }

  // ------------------------------------------------------------------ a normal form

  /** The tree without what does not take part in matching: comments and objects gone, positions valid or not, no nil lists. */
  function Normal(v: Value): Value
    decreases v
  {
    if Cut(TypeOf(v)) then Nil(TypeOf(v))
    else match v
      case Nil(t) => if t.PtrT? then Nil(IDENT_PTR) else if t.SliceT? then Slice(t, []) else v
      case PosV(pos) => PosV(if pos.IsValid() then At(0, 0, 0) else NoPos)
      case Prim(_, _) => v
      case Ptr(t, e) => Ptr(t, Normal(e))
      case Iface(t, e) => Iface(t, Normal(e))
      case Slice(t, items) => Slice(t, NormalAll(items))
      case Struct(t, fields) => Struct(t, NormalAll(fields))
  }

  function NormalAll(vs: seq<Value>): (r: seq<Value>)
    ensures |r| == |vs|
    decreases vs
  {
    seq(|vs|, i requires 0 <= i < |vs| => Normal(vs[i]))
  }

  /** Two trees that the Go type system admits are equal exactly when they have the same normal form. */
  lemma {:induction false} EqualMeansSameNormalForm(v: Value, w: Value)
    requires WellTyped(v) && WellTyped(w)
    ensures Eq(v, w) <==> Normal(v) == Normal(w)
    decreases v, 1
  {
    if !Cut(TypeOf(v)) && TypeOf(v) == TypeOf(w) {
      match v
      case Ptr(_, e) => if w.Ptr? { EqualMeansSameNormalForm(e, w.elem); }
      case Iface(_, e) => if w.Iface? { EqualMeansSameNormalForm(e, w.elem); }
      case Slice(_, items) =>
        assert Normal(w) == Slice(w.t, NormalAll(Items(w)));
        EqualItemsSameNormalForms(items, Items(w));
      case Struct(_, fields) => EqualItemsSameNormalForms(fields, w.fields);
      case _ =>
    }
  }

  lemma {:induction false} EqualItemsSameNormalForms(vs: seq<Value>, ws: seq<Value>)
    requires (forall i | 0 <= i < |vs| :: WellTyped(vs[i])) && forall i | 0 <= i < |ws| :: WellTyped(ws[i])
    ensures EqAll(vs, ws) <==> NormalAll(vs) == NormalAll(ws)
    decreases vs, 0
  {
    hide Eq, Normal, WellTyped;
    if |vs| == |ws| {
      forall i | 0 <= i < |vs| ensures Eq(vs[i], ws[i]) <==> NormalAll(vs)[i] == NormalAll(ws)[i] {
        EqualMeansSameNormalForm(vs[i], ws[i]);
      }
    }
  }
}
