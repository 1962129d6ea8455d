/** Reading, writing and typing a field at a dotted path through nested structs and pointers. */
module CodecPath {

  datatype Type = Prim(name: string) | Slice(elem: Type) | Ptr(elem: Type) | Struct(fields: FieldTypes)

  datatype FieldTypes = NoFieldTypes | FieldType(name: string, typ: Type, rest: FieldTypes)

  /** Every value knows its type: a nil pointer and a slice carry their element type. */
  datatype Val =
    | PrimVal(name: string, data: int)
    | SliceVal(elem: Type, items: seq<int>)
    | NilPtr(elem: Type)
    | PtrTo(target: Val)
    | StructVal(fields: Fields)

  datatype Fields = NoFields | Field(name: string, val: Val, rest: Fields)

  datatype Error = NoField | NotInSlice | NotInKind | TypeMismatch | NotSettable

  datatype Result<T> = Ok(value: T) | Err(error: Error)

  /** `Panics` is the panic of the reflection library on an assignment it refuses. */
  datatype Outcome = Done | Failed(error: Error) | Panics

  function TypeOf(v: Val): Type {
    match v
    case PrimVal(name, _) => Prim(name)
    case SliceVal(elem, _) => Slice(elem)
    case NilPtr(elem) => Ptr(elem)
    case PtrTo(t) => Ptr(TypeOf(t))
    case StructVal(fs) => Struct(TypesOf(fs))
  }

  function TypesOf(fs: Fields): FieldTypes {
    match fs
    case NoFields => NoFieldTypes
    case Field(n, v, rest) => FieldType(n, TypeOf(v), TypesOf(rest))
  }

  /** The zero value of a type. */
  function Zero(t: Type): (v: Val)
    ensures TypeOf(v) == t
  {
    match t
    case Prim(name) => PrimVal(name, 0)
    case Slice(elem) => SliceVal(elem, [])
    case Ptr(elem) => NilPtr(elem)
    case Struct(fs) => StructVal(ZeroFields(fs))
  }

  function ZeroFields(fs: FieldTypes): (r: Fields)
    ensures TypesOf(r) == fs
  {
    match fs
    case NoFieldTypes => NoFields
    case FieldType(n, t, rest) => Field(n, Zero(t), ZeroFields(rest))
  }

  /** `ItemTyper.Next`: the part before the first dot, and everything after it. */
  function Next(path: string): (r: (string, string))
    ensures path != "" ==> |r.1| < |path|
  {
    if path == "" then ("", "")
    else if path[0] == '.' then ("", path[1..])
    else var rest := Next(path[1..]); ([path[0]] + rest.0, rest.1)
  }

  /** A path is taken apart at its first dot; without one it is all head. */
  lemma {:induction false} NextSplits(head: string, tail: string)
    requires '.' !in head
    ensures Next(head + ['.'] + tail) == (head, tail)
    ensures Next(head) == (head, "")
  {
    var path := head + ['.'] + tail;
    if head == "" {
      assert path == ['.'] + tail;
    } else {
      NextSplits(head[1..], tail);
      assert path[1..] == head[1..] + ['.'] + tail && head == [head[0]] + head[1..];
    }
  }

  // ---------- typeForPath ----------

  function TypeForPath(t: Type, path: string): Result<Type>
    decreases |path|, 0, t
  {
    if path == "" then Ok(t)
    else
      match t
      case Ptr(elem) => TypeForPath(elem, path)
      case Slice(_) => Err(NotInSlice)
      case Struct(fs) => FieldTypeForPath(fs, Next(path).0, Next(path).1)
      case Prim(_) => Err(NotInKind)
  }

  function FieldTypeForPath(fs: FieldTypes, head: string, tail: string): Result<Type>
    decreases |tail|, 1, fs
  {
    match fs
    case NoFieldTypes => Err(NoField)
    case FieldType(n, t, rest) =>
      if n != head then FieldTypeForPath(rest, head, tail)
      else if tail == "" then Ok(t)
      else TypeForPath(t, tail)
  }

  // ---------- ValueForPath ----------

  function ValueForPath(v: Val, path: string): Result<Val>
    decreases |path|, 0, v
  {
    if path == "" then Ok(v)
    else
      match v
      case NilPtr(_) => Err(NotInKind)
      case PtrTo(t) => ValueForPath(t, path)
      case SliceVal(_, _) => Err(NotInSlice)
      case StructVal(fs) => FieldForPath(fs, Next(path).0, Next(path).1)
      case PrimVal(_, _) => Err(NotInKind)
  }

  function FieldForPath(fs: Fields, head: string, tail: string): Result<Val>
    decreases |tail|, 1, fs
  {
    match fs
    case NoFields => Err(NoField)
    case Field(n, v, rest) =>
      if n != head then FieldForPath(rest, head, tail)
      else if tail == "" then Ok(v)
      else ValueForPath(v, tail)
  }

  // ---------- SetValueAtPath ----------

  function Deref(t: Type): Type {
    match t case Ptr(elem) => Deref(elem) case _ => t
  }

  predicate IsPtr(v: Val) {
    v.NilPtr? || v.PtrTo?
  }

  /** Assigning `x` to a settable field that holds `into`. */
  function ApplyValue(into: Val, x: Val): (Val, Outcome) {
    if Deref(TypeOf(into)) != Deref(TypeOf(x)) then (into, Failed(TypeMismatch))
    else if IsPtr(into) then
      if IsPtr(x) then (if TypeOf(x) == TypeOf(into) then (x, Done) else (into, Panics))
      else (if Ptr(TypeOf(x)) == TypeOf(into) then (PtrTo(x), Done) else (into, Panics))
    else
      match x
      case NilPtr(_) => (into, Panics)
      case PtrTo(t) => if TypeOf(t) == TypeOf(into) then (t, Done) else (into, Panics)
      case _ => (x, Done)
  }

  /** The value after the call, and how the call ended. Nil pointers met on the way are allocated and stay so even when
      the call fails further down. No struct has a field with an empty name. */
  function SetValueAtPath(into: Val, x: Val, path: string): (Val, Outcome)
    decreases |path|, 0, TypeOf(into)
  {
    match into
    case NilPtr(elem) => var (t, o) := SetValueAtPath(Zero(elem), x, path); (PtrTo(t), o)
    case PtrTo(t) => var (t', o) := SetValueAtPath(t, x, path); (PtrTo(t'), o)
    case SliceVal(_, _) => (into, Failed(NotInSlice))
    case StructVal(fs) =>
      if path == "" then (into, Failed(NoField))
      else var (fs', o) := SetField(fs, x, Next(path).0, Next(path).1); (StructVal(fs'), o)
    case PrimVal(_, _) => (into, Failed(NotInKind))
  }

  function SetField(fs: Fields, x: Val, head: string, tail: string): (Fields, Outcome)
    decreases |tail|, 1, fs
  {
    match fs
    case NoFields => (fs, Failed(NoField))
    case Field(n, v, rest) =>
      if n != head then var (rest', o) := SetField(rest, x, head, tail); (Field(n, v, rest'), o)
      else
        var (v', o) := if tail == "" then ApplyValue(v, x) else SetValueAtPath(v, x, tail);
        (Field(n, v', rest), o)
  }

  // ---------- the laws ----------

  /** `x` can be assigned to a field of type `t`: same type, its pointee, or behind one non-nil pointer. */
  predicate Assignable(t: Type, x: Val) {
    || TypeOf(x) == t
    || (!IsPtr(x) && t == Ptr(TypeOf(x)))
    || (x.PtrTo? && !t.Ptr? && TypeOf(x.target) == t)
  }

  /** What the field holds afterwards. */
  function Coerced(t: Type, x: Val): Val {
    if TypeOf(x) == t then x else if t.Ptr? then PtrTo(x) else if x.PtrTo? then x.target else x
  }

  /** `b` is what `t` points to in the end. */
  predicate Behind(t: Type, b: Type) {
    t == b || (t.Ptr? && Behind(t.elem, b))
  }

  lemma {:induction false} DerefMeaning(t: Type, b: Type)
    ensures Deref(t) == b <==> Behind(t, b) && !b.Ptr?
  {
    if t.Ptr? {
      DerefMeaning(t.elem, b);
    }
  }

  /** Every outcome of an assignment: a mismatch error exactly when different types are behind the pointers, success
      exactly on assignable values, a panic on the rest. Only success changes the field. */
  lemma ApplyOutcome(into: Val, x: Val)
    ensures var (v, o) := ApplyValue(into, x);
            && (o == Done <==> Assignable(TypeOf(into), x))
            && (o == Failed(TypeMismatch) <==> Deref(TypeOf(into)) != Deref(TypeOf(x)))
            && (o.Failed? ==> o.error == TypeMismatch)
            && v == (if o == Done then Coerced(TypeOf(into), x) else into)
            && TypeOf(v) == TypeOf(into)
  {
  }

  /** Zero values: 0, nil, the empty slice, and structs of zero values under the same names. */
  lemma ZeroValues(name: string, t: Type, n: string, rest: FieldTypes)
    ensures Zero(Prim(name)) == PrimVal(name, 0) && Zero(Ptr(t)) == NilPtr(t) && Zero(Slice(t)) == SliceVal(t, [])
    ensures ZeroFields(FieldType(n, t, rest)) == Field(n, Zero(t), ZeroFields(rest)) && ZeroFields(NoFieldTypes) == NoFields
  {
  }

  /** The path runs into a nil pointer, or into one at a field before its end. */
  predicate RunsIntoNil(v: Val, path: string)
    decreases |path|, 0, v
  {
    path != "" &&
    match v
    case NilPtr(_) => true
    case PtrTo(t) => RunsIntoNil(t, path)
    case StructVal(fs) => FieldRunsIntoNil(fs, Next(path).0, Next(path).1)
    case _ => false
  }

  predicate FieldRunsIntoNil(fs: Fields, head: string, tail: string)
    decreases |tail|, 1, fs
  {
    match fs
    case NoFields => false
    case Field(n, v, rest) => if n != head then FieldRunsIntoNil(rest, head, tail) else tail != "" && RunsIntoNil(v, tail)
  }

  /** The outcome of a read: an error on a nil pointer; otherwise the error of the path's type, or a value of it. */
  lemma {:induction false} ReadOutcome(v: Val, path: string)
    ensures var r := ValueForPath(v, path);
            if RunsIntoNil(v, path) then r == Err(NotInKind)
            else match TypeForPath(TypeOf(v), path) case Err(e) => r == Err(e) case Ok(t) => r.Ok? && TypeOf(r.value) == t
    decreases |path|, 0, v
  {
    if path != "" {
      match v
      case PtrTo(t) => ReadOutcome(t, path);
      case StructVal(fs) => ReadFieldOutcome(fs, Next(path).0, Next(path).1);
      case _ =>
    }
  }

  lemma {:induction false} ReadFieldOutcome(fs: Fields, head: string, tail: string)
    ensures var r := FieldForPath(fs, head, tail);
            if FieldRunsIntoNil(fs, head, tail) then r == Err(NotInKind)
            else match FieldTypeForPath(TypesOf(fs), head, tail)
                 case Err(e) => r == Err(e)
                 case Ok(t) => r.Ok? && TypeOf(r.value) == t
    decreases |tail|, 1, fs
  {
    match fs
    case NoFields =>
    case Field(n, v, rest) =>
      if n != head {
        ReadFieldOutcome(rest, head, tail);
      } else if tail != "" {
        ReadOutcome(v, tail);
      }
  }

  /** A field is found by its name, behind pointers too, and by nothing else. */
  lemma FieldLookup(n: string, m: string, v: Val, rest: Fields)
    requires n != "" && m != "" && n != m && '.' !in n && '.' !in m
    ensures ValueForPath(StructVal(Field(n, v, rest)), n) == Ok(v)
    ensures ValueForPath(StructVal(Field(n, v, rest)), m) == ValueForPath(StructVal(rest), m)
    ensures ValueForPath(StructVal(NoFields), n) == Err(NoField)
    ensures ValueForPath(PtrTo(v), n) == ValueForPath(v, n)
    ensures TypeForPath(Struct(FieldType(n, TypeOf(v), TypesOf(rest))), n) == Ok(TypeOf(v))
    ensures TypeForPath(Ptr(TypeOf(v)), n) == TypeForPath(TypeOf(v), n)
  {
    NextSplits(n, "");
    NextSplits(m, "");
  }

  /** A dotted path is read one name at a time. */
  lemma PathComposes(v: Val, t: Type, head: string, tail: string)
    requires head != "" && '.' !in head && tail != ""
    ensures ValueForPath(v, head + ['.'] + tail)
         == match ValueForPath(v, head) case Ok(u) => ValueForPath(u, tail) case err => err
    ensures TypeForPath(t, head + ['.'] + tail)
         == match TypeForPath(t, head) case Ok(u) => TypeForPath(u, tail) case err => err
  {
    NextSplits(head, tail);
    ValueComposes(v, head, tail);
    TypeComposes(t, head, tail);
  }

  lemma {:induction false} ValueComposes(v: Val, head: string, tail: string)
    requires head != "" && '.' !in head && tail != ""
    ensures ValueForPath(v, head + ['.'] + tail)
         == match ValueForPath(v, head) case Ok(u) => ValueForPath(u, tail) case err => err
    decreases v
  {
    NextSplits(head, tail);
    match v
    case PtrTo(t) => ValueComposes(t, head, tail);
    case StructVal(fs) => FieldsCompose(fs, head, tail);
    case _ =>
  }

  lemma {:induction false} FieldsCompose(fs: Fields, head: string, tail: string)
    requires tail != ""
    ensures FieldForPath(fs, head, tail) == match FieldForPath(fs, head, "") case Ok(u) => ValueForPath(u, tail) case err => err
    decreases fs
  {
    match fs
    case NoFields =>
    case Field(_, _, rest) => FieldsCompose(rest, head, tail);
  }

  lemma {:induction false} TypeComposes(t: Type, head: string, tail: string)
    requires head != "" && '.' !in head && tail != ""
    ensures TypeForPath(t, head + ['.'] + tail)
         == match TypeForPath(t, head) case Ok(u) => TypeForPath(u, tail) case err => err
    decreases t
  {
    NextSplits(head, tail);
    match t
    case Ptr(elem) => TypeComposes(elem, head, tail);
    case Struct(fs) => FieldTypesCompose(fs, head, tail);
    case _ =>
  }

  lemma {:induction false} FieldTypesCompose(fs: FieldTypes, head: string, tail: string)
    requires tail != ""
    ensures FieldTypeForPath(fs, head, tail) == match FieldTypeForPath(fs, head, "") case Ok(u) => TypeForPath(u, tail) case err => err
    decreases fs
  {
    match fs
    case NoFieldTypes =>
    case FieldType(_, _, rest) => FieldTypesCompose(rest, head, tail);
  }

  /** The outcome of a write, from the types alone: on the empty path the error for what is behind the pointers; on any
      other the error of its type, else that of the assignment. */
  function OutcomeOf(t: Type, x: Val, path: string): Outcome {
    if path == "" then
      match Deref(t)
      case Struct(_) => Failed(NoField)
      case Slice(_) => Failed(NotInSlice)
      case _ => Failed(NotInKind)
    else
      match TypeForPath(t, path)
      case Err(e) => Failed(e)
      case Ok(u) => if Deref(u) != Deref(TypeOf(x)) then Failed(TypeMismatch) else if Assignable(u, x) then Done else Panics
  }

  lemma {:induction false} SetOutcome(into: Val, x: Val, path: string)
    ensures SetValueAtPath(into, x, path).1 == OutcomeOf(TypeOf(into), x, path)
    decreases |path|, 0, TypeOf(into)
  {
    match into
    case NilPtr(elem) => SetOutcome(Zero(elem), x, path);
    case PtrTo(t) => SetOutcome(t, x, path);
    case StructVal(fs) =>
      if path != "" {
        SetFieldOutcome(fs, x, Next(path).0, Next(path).1);
      }
    case _ =>
  }

  lemma {:induction false} SetFieldOutcome(fs: Fields, x: Val, head: string, tail: string)
    ensures SetField(fs, x, head, tail).1
         == match FieldTypeForPath(TypesOf(fs), head, tail)
            case Err(e) => Failed(e)
            case Ok(u) => if Deref(u) != Deref(TypeOf(x)) then Failed(TypeMismatch) else if Assignable(u, x) then Done else Panics
    decreases |tail|, 1, fs
  {
    match fs
    case NoFields =>
    case Field(n, v, rest) =>
      if n != head {
        SetFieldOutcome(rest, x, head, tail);
      } else if tail == "" {
        ApplyOutcome(v, x);
      } else {
        SetOutcome(v, x, tail);
      }
  }

  /** Reading a field gives a value of the field's declared type. */
  lemma {:induction false} ValueHasType(v: Val, path: string)
    ensures ValueForPath(v, path).Ok? ==> TypeForPath(TypeOf(v), path) == Ok(TypeOf(ValueForPath(v, path).value))
    decreases |path|, 0, v
  {
    if path != "" {
      match v
      case PtrTo(t) => ValueHasType(t, path);
      case StructVal(fs) => FieldHasType(fs, Next(path).0, Next(path).1);
      case _ =>
    }
  }

  lemma {:induction false} FieldHasType(fs: Fields, head: string, tail: string)
    ensures FieldForPath(fs, head, tail).Ok? ==>
              FieldTypeForPath(TypesOf(fs), head, tail) == Ok(TypeOf(FieldForPath(fs, head, tail).value))
    decreases |tail|, 1, fs
  {
    match fs
    case NoFields =>
    case Field(n, v, rest) =>
      if n != head {
        FieldHasType(rest, head, tail);
      } else if tail != "" {
        ValueHasType(v, tail);
      }
  }

  /** Exactly when a write succeeds, and what a read at the same path then returns; types never change. The empty path
      is the one path that has a type and can be read but not written. */
  lemma {:induction false} SetThenGet(into: Val, x: Val, path: string)
    ensures var (v, o) := SetValueAtPath(into, x, path);
            var t := TypeForPath(TypeOf(into), path);
            && TypeOf(v) == TypeOf(into)
            && (o == Done <==> path != "" && t.Ok? && Assignable(t.value, x))
            && (o == Done ==> ValueForPath(v, path) == Ok(Coerced(t.value, x)))
    decreases |path|, 0, TypeOf(into)
  {
    match into
    case NilPtr(elem) => SetThenGet(Zero(elem), x, path);
    case PtrTo(t) => SetThenGet(t, x, path);
    case StructVal(fs) =>
      if path != "" {
        SetThenGetField(fs, x, Next(path).0, Next(path).1);
      }
    case _ =>
  }

  lemma {:induction false} SetThenGetField(fs: Fields, x: Val, head: string, tail: string)
    ensures var (fs', o) := SetField(fs, x, head, tail);
            var t := FieldTypeForPath(TypesOf(fs), head, tail);
            && TypesOf(fs') == TypesOf(fs)
            && (o == Done <==> t.Ok? && Assignable(t.value, x))
            && (o == Done ==> FieldForPath(fs', head, tail) == Ok(Coerced(t.value, x)))
    decreases |tail|, 1, fs
  {
    match fs
    case NoFields =>
    case Field(n, v, rest) =>
      if n != head {
        SetThenGetField(rest, x, head, tail);
      } else if tail == "" {
        ApplyOutcome(v, x);
      } else {
        SetThenGet(v, x, tail);
      }
  }

  /** The law as callers use it: a value of the path's own type can be set, and is then read back unchanged. */
  lemma SetThenGetSameType(into: Val, x: Val, path: string)
    requires path != "" && TypeForPath(TypeOf(into), path) == Ok(TypeOf(x))
    ensures var (v, o) := SetValueAtPath(into, x, path);
            o == Done && ValueForPath(v, path) == Ok(x) && TypeOf(v) == TypeOf(into)
  {
    SetThenGet(into, x, path);
  }

  /** Writing back what was read changes nothing at all. */
  lemma {:induction false} GetThenSet(v: Val, path: string)
    requires path != "" && ValueForPath(v, path).Ok?
    ensures SetValueAtPath(v, ValueForPath(v, path).value, path) == (v, Done)
    decreases |path|, 0, v
  {
    match v
    case PtrTo(t) => GetThenSet(t, path);
    case StructVal(fs) => GetThenSetField(fs, Next(path).0, Next(path).1);
    case _ =>
  }

  lemma {:induction false} GetThenSetField(fs: Fields, head: string, tail: string)
    requires FieldForPath(fs, head, tail).Ok?
    ensures SetField(fs, FieldForPath(fs, head, tail).value, head, tail) == (fs, Done)
    decreases |tail|, 1, fs
  {
    match fs
    case Field(n, v, rest) =>
      if n != head {
        GetThenSetField(rest, head, tail);
      } else if tail == "" {
        ApplyOutcome(v, v);
      } else {
        GetThenSet(v, tail);
      }
  }

  /** The second of two successful writes to one path wins. */
  lemma {:induction false} SetThenSet(into: Val, x: Val, y: Val, path: string)
    requires SetValueAtPath(into, x, path).1 == Done
    ensures SetValueAtPath(into, y, path).1 == Done ==>
              SetValueAtPath(SetValueAtPath(into, x, path).0, y, path) == SetValueAtPath(into, y, path)
    decreases |path|, 0, TypeOf(into)
  {
    match into
    case NilPtr(elem) => SetThenSet(Zero(elem), x, y, path);
    case PtrTo(t) => SetThenSet(t, x, y, path);
    case StructVal(fs) => SetThenSetField(fs, x, y, Next(path).0, Next(path).1);
    case _ =>
  }

  lemma {:induction false} SetThenSetField(fs: Fields, x: Val, y: Val, head: string, tail: string)
    requires SetField(fs, x, head, tail).1 == Done
    ensures SetField(fs, y, head, tail).1 == Done ==>
              SetField(SetField(fs, x, head, tail).0, y, head, tail) == SetField(fs, y, head, tail)
    decreases |tail|, 1, fs
  {
    match fs
    case Field(n, v, rest) =>
      if n != head {
        SetThenSetField(rest, x, y, head, tail);
      } else if tail == "" {
        ApplyOutcome(v, x);
        ApplyOutcome(v, y);
        ApplyOutcome(ApplyValue(v, x).0, y);
      } else {
        SetThenSet(v, x, y, tail);
      }
  }

  /** The paths part ways: at some point they name different fields of one struct. */
  predicate Diverge(p: string, q: string)
    decreases |p|
  {
    && p != "" && q != ""
    && (|| Next(p).0 != Next(q).0
        || (Next(p).1 != "" && Next(q).1 != "" && Diverge(Next(p).1, Next(q).1)))
  }

  /** The way that both paths share meets a nil pointer. */
  predicate MeetsNil(v: Val, p: string, q: string)
    decreases |p|, 0, v
  {
    match v
    case NilPtr(_) => true
    case PtrTo(t) => MeetsNil(t, p, q)
    case StructVal(fs) =>
      && Next(p).0 == Next(q).0 && p != "" && Next(p).1 != "" && Next(q).1 != ""
      && FieldMeetsNil(fs, Next(p).0, Next(p).1, Next(q).1)
    case _ => false
  }

  predicate FieldMeetsNil(fs: Fields, head: string, p: string, q: string)
    decreases |p|, 1, fs
  {
    match fs
    case NoFields => false
    case Field(n, v, rest) => if n == head then MeetsNil(v, p, q) else FieldMeetsNil(rest, head, p, q)
  }

  /** Off the path nothing changes, whatever the outcome of the write: a read on a diverging path gives after the write
      what it gave before it, value or error. The exception is a read that failed on a nil pointer which the write
      allocates: it now fails further down, or gives the zero value of its type. */
  lemma {:induction false} OffPathUnchanged(into: Val, x: Val, p: string, q: string)
    requires Diverge(p, q)
    ensures var before, after := ValueForPath(into, q), ValueForPath(SetValueAtPath(into, x, p).0, q);
            if !MeetsNil(into, p, q) then after == before
            else
              && before.Err?
              && (after.Ok? ==> exists t :: TypeForPath(TypeOf(into), q) == Ok(t) && after.value == Zero(t))
    decreases |p|, 0, into
  {
    match into
    case NilPtr(elem) =>
      AllocatedIsZero(elem, x, p, q);
      SetThenGet(into, x, p);
      ValueHasType(SetValueAtPath(into, x, p).0, q);
    case PtrTo(t) => OffPathUnchanged(t, x, p, q);
    case StructVal(fs) => OffPathFieldUnchanged(fs, x, p, q);
    case _ =>
  }

  lemma {:induction false} OffPathFieldUnchanged(fs: Fields, x: Val, p: string, q: string)
    requires Diverge(p, q)
    ensures var before := FieldForPath(fs, Next(q).0, Next(q).1);
            var after := FieldForPath(SetField(fs, x, Next(p).0, Next(p).1).0, Next(q).0, Next(q).1);
            var shared := Next(p).0 == Next(q).0 && Next(p).1 != "" && Next(q).1 != "";
            if !(shared && FieldMeetsNil(fs, Next(p).0, Next(p).1, Next(q).1)) then after == before
            else
              && before.Err?
              && (after.Ok? ==> exists t :: FieldTypeForPath(TypesOf(fs), Next(q).0, Next(q).1) == Ok(t) && after.value == Zero(t))
    decreases |p|, 0, fs
  {
    match fs
    case NoFields =>
    case Field(n, v, rest) =>
      if n != Next(p).0 {
        if n != Next(q).0 {
          OffPathFieldUnchanged(rest, x, p, q);
        }
      } else if n == Next(q).0 {
        OffPathUnchanged(v, x, Next(p).1, Next(q).1);
      }
  }

  /** Off the path a newly allocated value is the zero value everywhere. */
  lemma {:induction false} AllocatedIsZero(t: Type, x: Val, p: string, q: string)
    requires Diverge(p, q)
    ensures var after := ValueForPath(SetValueAtPath(Zero(t), x, p).0, q);
            after.Ok? ==> after.value == Zero(TypeOf(after.value))
    decreases |p|, 0, t
  {
    match t
    case Ptr(elem) => AllocatedIsZero(elem, x, p, q);
    case Struct(fs) => AllocatedFieldIsZero(fs, x, p, q);
    case _ =>
  }

  lemma {:induction false} AllocatedFieldIsZero(fs: FieldTypes, x: Val, p: string, q: string)
    requires Diverge(p, q)
    ensures var after := FieldForPath(SetField(ZeroFields(fs), x, Next(p).0, Next(p).1).0, Next(q).0, Next(q).1);
            after.Ok? ==> after.value == Zero(TypeOf(after.value))
    decreases |p|, 0, fs
  {
    match fs
    case NoFieldTypes =>
    case FieldType(n, t, rest) =>
      if n == Next(q).0 {
        if n == Next(p).0 {
          AllocatedIsZero(t, x, Next(p).1, Next(q).1);
        } else if Next(q).1 != "" {
          ZeroReadsZero(t, Next(q).1);
        }
      } else if n == Next(p).0 {
        ZeroFieldReadsZero(rest, Next(q).0, Next(q).1);
      } else {
        AllocatedFieldIsZero(rest, x, p, q);
      }
  }

  lemma {:induction false} ZeroReadsZero(t: Type, q: string)
    ensures var r := ValueForPath(Zero(t), q); r.Ok? ==> r.value == Zero(TypeOf(r.value))
    decreases |q|, 0, t
  {
    if q != "" && t.Struct? {
      ZeroFieldReadsZero(t.fields, Next(q).0, Next(q).1);
    }
  }

  lemma {:induction false} ZeroFieldReadsZero(fs: FieldTypes, head: string, tail: string)
    ensures var r := FieldForPath(ZeroFields(fs), head, tail); r.Ok? ==> r.value == Zero(TypeOf(r.value))
    decreases |tail|, 1, fs
  {
    match fs
    case NoFieldTypes =>
    case FieldType(n, t, rest) =>
      if n != head {
        ZeroFieldReadsZero(rest, head, tail);
      } else if tail != "" {
        ZeroReadsZero(t, tail);
      }
  }

  // ---------- targets that cannot be set ----------

  /** `applyValue` on a field that cannot be set itself: only the target of an existing pointer can be written. */
  function ApplyUnsettable(into: Val, x: Val): (Val, Outcome) {
    if Deref(TypeOf(into)) != Deref(TypeOf(x)) then (into, Failed(TypeMismatch))
    else
      match into
      case NilPtr(_) => (into, if IsPtr(x) then Failed(NotSettable) else Panics)
      case PtrTo(t) =>
        var source := match x case NilPtr(elem) => Zero(elem) case PtrTo(u) => u case _ => x;
        if TypeOf(source) == TypeOf(t) then (PtrTo(source), Done) else (into, Panics)
      case _ => (into, Failed(NotSettable))
  }

  /** Every outcome of an assignment to a field that cannot be set. A panic meets a plain value assigned to a nil pointer,
      or a pointer depth that does not fit the existing target. */
  lemma UnsettableOutcome(into: Val, x: Val)
    ensures var o := ApplyUnsettable(into, x).1;
            var same := Deref(TypeOf(into)) == Deref(TypeOf(x));
            var fits := TypeOf(into) == TypeOf(x) || TypeOf(into) == Ptr(TypeOf(x));
            && (o == Failed(TypeMismatch) <==> !same)
            && (o == Failed(NotSettable) <==> same && (!IsPtr(into) || (into.NilPtr? && IsPtr(x))))
            && (o == Done <==> into.PtrTo? && fits && (IsPtr(x) ==> TypeOf(into) == TypeOf(x)))
            && (o == Panics <==> same && IsPtr(into) && if into.NilPtr? then !IsPtr(x) else o != Done)
  {
  }

  /** `SetValueAtPath` on a value that is not addressable. Behind a pointer everything can be set. */
  function SetUnsettable(into: Val, x: Val, path: string): (Val, Outcome)
    decreases |path|, 0, into
  {
    match into
    case NilPtr(_) => (into, Panics)
    case PtrTo(_) => SetValueAtPath(into, x, path)
    case SliceVal(_, _) => (into, Failed(NotInSlice))
    case StructVal(fs) =>
      if path == "" then (into, Failed(NoField))
      else var (fs', o) := SetUnsettableField(fs, x, Next(path).0, Next(path).1); (StructVal(fs'), o)
    case PrimVal(_, _) => (into, Failed(NotInKind))
  }

  function SetUnsettableField(fs: Fields, x: Val, head: string, tail: string): (Fields, Outcome)
    decreases |tail|, 1, fs
  {
    match fs
    case NoFields => (fs, Failed(NoField))
    case Field(n, v, rest) =>
      if n != head then var (rest', o) := SetUnsettableField(rest, x, head, tail); (Field(n, v, rest'), o)
      else
        var (v', o) := if tail == "" then ApplyUnsettable(v, x) else SetUnsettable(v, x, tail);
        (Field(n, v', rest), o)
  }

  /** The first pointer met on the path, its end included, is not nil. */
  predicate CrossesPointer(v: Val, path: string)
    decreases |path|, 0, v
  {
    match v
    case PtrTo(_) => true
    case StructVal(fs) => path != "" && FieldCrossesPointer(fs, Next(path).0, Next(path).1)
    case _ => false
  }

  predicate FieldCrossesPointer(fs: Fields, head: string, tail: string)
    decreases |tail|, 1, fs
  {
    match fs
    case NoFields => false
    case Field(n, v, rest) =>
      if n != head then FieldCrossesPointer(rest, head, tail)
      else if tail == "" then v.PtrTo? else CrossesPointer(v, tail)
  }

  /** That first pointer is the end of the path. */
  predicate EndsAtPointer(v: Val, path: string)
    decreases |path|, 0, v
  {
    v.StructVal? && path != "" && FieldEndsAtPointer(v.fields, Next(path).0, Next(path).1)
  }

  predicate FieldEndsAtPointer(fs: Fields, head: string, tail: string)
    decreases |tail|, 1, fs
  {
    match fs
    case NoFields => false
    case Field(n, v, rest) =>
      if n != head then FieldEndsAtPointer(rest, head, tail)
      else if tail == "" then v.PtrTo? else EndsAtPointer(v, tail)
  }

  /** A nil pointer assigned through an existing one becomes a zero value. */
  function Unnil(x: Val): Val {
    match x case NilPtr(elem) => PtrTo(Zero(elem)) case _ => x
  }

  /** A write to a value that is not addressable succeeds exactly when the write to an addressable one would and the path
      crosses a non-nil pointer before any nil one. Then it has the same effect, except that a nil pointer assigned where
      that first pointer is the end of the path sets the pointer's target to zero. */
  lemma {:induction false} UnsettableExactly(into: Val, x: Val, path: string)
    ensures var (v, o) := SetUnsettable(into, x, path);
            && (o == Done <==> SetValueAtPath(into, x, path).1 == Done && CrossesPointer(into, path))
            && (o == Done ==> v == SetValueAtPath(into, if EndsAtPointer(into, path) then Unnil(x) else x, path).0)
    decreases |path|, 0, into
  {
    match into
    case NilPtr(elem) =>
    case StructVal(fs) =>
      if path != "" {
        UnsettableFieldExactly(fs, x, Next(path).0, Next(path).1);
      }
    case _ =>
  }

  lemma {:induction false} UnsettableFieldExactly(fs: Fields, x: Val, head: string, tail: string)
    ensures var (fs', o) := SetUnsettableField(fs, x, head, tail);
            && (o == Done <==> SetField(fs, x, head, tail).1 == Done && FieldCrossesPointer(fs, head, tail))
            && (o == Done ==>
                  fs' == SetField(fs, if FieldEndsAtPointer(fs, head, tail) then Unnil(x) else x, head, tail).0)
    decreases |tail|, 1, fs
  {
    match fs
    case NoFields =>
    case Field(n, v, rest) =>
      if n != head {
        UnsettableFieldExactly(rest, x, head, tail);
      } else if tail != "" {
        UnsettableExactly(v, x, tail);
      }
  }
}
