/** Structural equality of src/equals.rs, the revision whose values include a
    `Free` variant. Function values are kept abstract: equality never looks
    inside them, and they equal nothing. */
module Equals {
  import opened Float32
  import opened Text

  datatype Type =
    | Unit
    | Int(i: I32)
    | Float(f: F32)
    | Bool(b: bool)
    | Str(s: string)
    | Tuple(fst: Type, snd: Type)
    | List(list: List)
    | Free(inner: Type)
    | Function(id: nat)   // the closure variants, known only by identity

  datatype List = End | Cons(head: Type, tail: List)

  /** `Type::equals`. */
  predicate Equals(a: Type, o: Type)
    decreases a
  {
    match a
    case Unit => o.Unit?
    case Int(x) => o.Int? && x == o.i
    case Float(x) => o.Float? && Float32.Eq(x, o.f)
    case Bool(x) => o.Bool? && x == o.b
    case Str(x) => o.Str? && x == o.s
    case Tuple(x, y) => o.Tuple? && Equals(x, o.fst) && Equals(y, o.snd)
    case List(l) => o.List? && ListEquals(l, o.list)
    case Free(x) => o.Free? && Equals(x, o.inner)
    case Function(_) => false
  }

  /** `List::equals`. */
  predicate ListEquals(l: List, o: List)
    decreases l
  {
    match l
    case End => o.End?
    case Cons(h, t) => o.Cons? && Equals(h, o.head) && ListEquals(t, o.tail)
  }

  /** Built from `Unit`, `Int`, `Bool`, `Str`, `Tuple`, `List` and `Free` only. */
  predicate FloatFree(v: Type) {
    match v
    case Float(_) => false
    case Function(_) => false
    case Tuple(x, y) => FloatFree(x) && FloatFree(y)
    case List(l) => ListFloatFree(l)
    case Free(x) => FloatFree(x)
    case _ => true
  }

  predicate ListFloatFree(l: List) {
    match l
    case End => true
    case Cons(h, t) => FloatFree(h) && ListFloatFree(t)
  }

  function Length(l: List): nat {
    match l
    case End => 0
    case Cons(_, t) => 1 + Length(t)
  }

  /** Equality compares like variants only, payloads by value. */
  lemma EqualsByVariant(a: Type, o: Type)
    ensures a.Unit? ==> (Equals(a, o) <==> o.Unit?)
    ensures a.Int? ==> (Equals(a, o) <==> o.Int? && o.i == a.i)
    ensures a.Float? ==> (Equals(a, o) <==> o.Float? && Float32.Eq(a.f, o.f))
    ensures a.Bool? ==> (Equals(a, o) <==> o.Bool? && o.b == a.b)
    ensures a.Str? ==> (Equals(a, o) <==> o.Str? && o.s == a.s)
    ensures a.Tuple? ==> (Equals(a, o) <==> o.Tuple? && Equals(a.fst, o.fst) && Equals(a.snd, o.snd))
    ensures a.List? ==> (Equals(a, o) <==> o.List? && ListEquals(a.list, o.list))
    ensures a.Free? ==> (Equals(a, o) <==> o.Free? && Equals(a.inner, o.inner))
    ensures a.Function? || o.Function? ==> !Equals(a, o)
  {
  }

  /** `End` equals only `End`; `Cons` equals `Cons` exactly when heads and
      tails are equal. */
  lemma ListEqualsByVariant(l: List, o: List)
    ensures l.End? ==> (ListEquals(l, o) <==> o.End?)
    ensures l.Cons? ==> (ListEquals(l, o) <==> o.Cons? && Equals(l.head, o.head) && ListEquals(l.tail, o.tail))
  {
  }

  lemma {:induction false} EqualsSymmetric(a: Type, b: Type)
    ensures Equals(a, b) == Equals(b, a)
  {
    match a
    case Float(x) => if b.Float? { EqSymmetric(x, b.f); }
    case Tuple(x, y) => if b.Tuple? { EqualsSymmetric(x, b.fst); EqualsSymmetric(y, b.snd); }
    case List(l) => if b.List? { ListEqualsSymmetric(l, b.list); }
    case Free(x) => if b.Free? { EqualsSymmetric(x, b.inner); }
    case _ =>
  }

  lemma {:induction false} ListEqualsSymmetric(l: List, o: List)
    ensures ListEquals(l, o) == ListEquals(o, l)
  {
    match l
    case End =>
    case Cons(h, t) => if o.Cons? { EqualsSymmetric(h, o.head); ListEqualsSymmetric(t, o.tail); }
  }

  lemma {:induction false} EqualsReflexive(v: Type)
    requires FloatFree(v)
    ensures Equals(v, v)
  {
    match v
    case Tuple(x, y) => EqualsReflexive(x); EqualsReflexive(y);
    case List(l) => ListEqualsReflexive(l);
    case Free(x) => EqualsReflexive(x);
    case _ =>
  }

  lemma {:induction false} ListEqualsReflexive(l: List)
    requires ListFloatFree(l)
    ensures ListEquals(l, l)
  {
    match l
    case End =>
    case Cons(h, t) => EqualsReflexive(h); ListEqualsReflexive(t);
  }

  /** Reflexivity fails on floats: a NaN is not equal to itself. */
  lemma NaNBreaksReflexivity()
    ensures !Equals(Float(QuietNaN), Float(QuietNaN))
  {
    NaNIsNotSelfEqual();
  }

  /** `Cons` equals `Cons` exactly when heads and tails are equal, so lists of
      different lengths are never equal. */
  lemma {:induction false} ListEqualsSameLength(l: List, o: List)
    requires ListEquals(l, o)
    ensures Length(l) == Length(o)
  {
    match l
    case End =>
    case Cons(_, t) => ListEqualsSameLength(t, o.tail);
  }
}
