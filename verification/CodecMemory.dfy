/** `SetValueAtPath` as it runs: fields written in place, pointer targets shared, nil pointers allocated. */
module CodecMemory {
  import opened CodecPath
  import opened Options

  /** The target of a pointer. */
  class Cell {
    var content: Mem
    constructor (content: Mem)
      ensures this.content == content
    {
      this.content := content;
    }
  }

  datatype Mem =
    | MPrim(name: string, data: int)
    | MSlice(elem: Type, items: seq<int>)
    | MPtr(elem: Type, cell: Cell?)
    | MStruct(fields: MFields)

  datatype MFields = MNone | MField(name: string, mem: Mem, rest: MFields)

  function MemType(m: Mem): Type {
    match m
    case MPrim(name, _) => Prim(name)
    case MSlice(elem, _) => Slice(elem)
    case MPtr(elem, _) => Ptr(elem)
    case MStruct(fs) => Struct(MemTypes(fs))
  }

  function MemTypes(fs: MFields): FieldTypes {
    match fs
    case MNone => NoFieldTypes
    case MField(n, m, rest) => FieldType(n, MemType(m), MemTypes(rest))
  }

  function ZeroMem(t: Type): Mem {
    match t
    case Prim(name) => MPrim(name, 0)
    case Slice(elem) => MSlice(elem, [])
    case Ptr(elem) => MPtr(elem, null)
    case Struct(fs) => MStruct(ZeroMems(fs))
  }

  function ZeroMems(fs: FieldTypes): MFields {
    match fs
    case NoFieldTypes => MNone
    case FieldType(n, t, rest) => MField(n, ZeroMem(t), ZeroMems(rest))
  }

  // ---------- memory and the value it holds ----------

  /** A value together with the cells its pointers go through. */
  datatype Layout =
    | LPrim(name: string, data: int)
    | LSlice(elem: Type, items: seq<int>)
    | LNil(elem: Type)
    | LPtr(cell: Cell, target: Layout)
    | LStruct(fields: LFields)

  datatype LFields = LNone | LField(name: string, val: Layout, rest: LFields)

  ghost function ValOf(l: Layout): Val {
    match l
    case LPrim(name, data) => PrimVal(name, data)
    case LSlice(elem, items) => SliceVal(elem, items)
    case LNil(elem) => NilPtr(elem)
    case LPtr(_, t) => PtrTo(ValOf(t))
    case LStruct(fs) => StructVal(ValsOf(fs))
  }

  ghost function ValsOf(fs: LFields): Fields {
    match fs
    case LNone => NoFields
    case LField(n, l, rest) => Field(n, ValOf(l), ValsOf(rest))
  }

  /** What is stored in place for a layout. */
  ghost function Flat(l: Layout): (m: Mem)
    ensures MemType(m) == TypeOf(ValOf(l))
  {
    match l
    case LPrim(name, data) => MPrim(name, data)
    case LSlice(elem, items) => MSlice(elem, items)
    case LNil(elem) => MPtr(elem, null)
    case LPtr(c, t) => MPtr(TypeOf(ValOf(t)), c)
    case LStruct(fs) => MStruct(FlatFields(fs))
  }

  ghost function FlatFields(fs: LFields): (ms: MFields)
    ensures MemTypes(ms) == TypesOf(ValsOf(fs))
  {
    match fs
    case LNone => MNone
    case LField(n, l, rest) => MField(n, Flat(l), FlatFields(rest))
  }

  ghost function Cells(l: Layout): set<Cell> {
    match l
    case LPtr(c, t) => {c} + Cells(t)
    case LStruct(fs) => FieldCells(fs)
    case _ => {}
  }

  ghost function FieldCells(fs: LFields): set<Cell> {
    match fs
    case LNone => {}
    case LField(_, l, rest) => Cells(l) + FieldCells(rest)
  }

  /** The cells hold what the layout says, and no two pointers of it share a cell. */
  ghost predicate Holds(l: Layout)
    reads Cells(l)
    decreases l
  {
    match l
    case LPtr(c, t) => c !in Cells(t) && c.content == Flat(t) && Holds(t)
    case LStruct(fs) => FieldsHold(fs)
    case _ => true
  }

  ghost predicate FieldsHold(fs: LFields)
    reads FieldCells(fs)
    decreases fs
  {
    match fs
    case LNone => true
    case LField(_, l, rest) => Cells(l) !! FieldCells(rest) && Holds(l) && FieldsHold(rest)
  }

  ghost function ZeroLayout(t: Type): (l: Layout)
    ensures ValOf(l) == Zero(t) && Flat(l) == ZeroMem(t) && Cells(l) == {} && Holds(l)
  {
    match t
    case Prim(name) => LPrim(name, 0)
    case Slice(elem) => LSlice(elem, [])
    case Ptr(elem) => LNil(elem)
    case Struct(fs) => LStruct(ZeroLayouts(fs))
  }

  ghost function ZeroLayouts(fs: FieldTypes): (ls: LFields)
    ensures ValsOf(ls) == ZeroFields(fs) && FlatFields(ls) == ZeroMems(fs) && FieldCells(ls) == {} && FieldsHold(ls)
  {
    match fs
    case NoFieldTypes => LNone
    case FieldType(n, t, rest) => LField(n, ZeroLayout(t), ZeroLayouts(rest))
  }

  // ---------- what a write does to pointers ----------

  /** The cells after `applyValue`: an assigned pointer is taken over as it is, a plain value goes through an existing
      pointer, and a refused assignment changes nothing. */
  ghost predicate Assigned(l: Layout, lx: Layout, l': Layout) {
    if ApplyValue(ValOf(l), ValOf(lx)).1 != Done then l' == l
    else if l.LNil? || l.LPtr? then
      if lx.LNil? || lx.LPtr? then l' == lx else l'.LPtr? && l'.target == lx && (l.LPtr? ==> l'.cell == l.cell)
    else l' == if lx.LPtr? then lx.target else lx
  }

  /** The cells after `SetValueAtPath`: the same at every pointer that was not nil, down to the end of the path; nil
      pointers on the path are allocated; everything off the path is the same, cells included. */
  ghost predicate WrittenAt(l: Layout, lx: Layout, path: string, l': Layout)
    decreases |path|, 0, TypeOf(ValOf(l))
  {
    match l
    case LNil(elem) => l'.LPtr? && WrittenAt(ZeroLayout(elem), lx, path, l'.target)
    case LPtr(c, t) => l'.LPtr? && l'.cell == c && WrittenAt(t, lx, path, l'.target)
    case LStruct(fs) =>
      if path == "" then l' == l else l'.LStruct? && FieldWritten(fs, lx, Next(path).0, Next(path).1, l'.fields)
    case _ => l' == l
  }

  ghost predicate FieldWritten(fs: LFields, lx: Layout, head: string, tail: string, fs': LFields)
    decreases |tail|, 1, TypesOf(ValsOf(fs))
  {
    match fs
    case LNone => fs' == LNone
    case LField(n, v, rest) =>
      && fs'.LField? && fs'.name == n
      && if n != head then fs'.val == v && FieldWritten(rest, lx, head, tail, fs'.rest)
         else fs'.rest == rest && if tail == "" then Assigned(v, lx, fs'.val) else WrittenAt(v, lx, tail, fs'.val)
  }

  /** The part of a layout at a path. */
  ghost function At(l: Layout, path: string): Option<Layout>
    decreases |path|, 0, l
  {
    if path == "" then Some(l)
    else
      match l
      case LPtr(_, t) => At(t, path)
      case LStruct(fs) => FieldAt(fs, Next(path).0, Next(path).1)
      case _ => None
  }

  ghost function FieldAt(fs: LFields, head: string, tail: string): Option<Layout>
    decreases |tail|, 1, fs
  {
    match fs
    case LNone => None
    case LField(n, v, rest) =>
      if n != head then FieldAt(rest, head, tail) else if tail == "" then Some(v) else At(v, tail)
  }

  /** Off the path not only the values but the pointers stay the same, all the way down. */
  lemma {:induction false} OffPathPointersKept(l: Layout, lx: Layout, p: string, l': Layout, q: string)
    requires WrittenAt(l, lx, p, l') && Diverge(p, q) && At(l, q).Some?
    ensures At(l', q) == At(l, q)
    decreases |p|, 0, l
  {
    match l
    case LPtr(_, t) => OffPathPointersKept(t, lx, p, l'.target, q);
    case LStruct(fs) => OffPathFieldKept(fs, lx, p, l'.fields, q);
    case _ =>
  }

  lemma {:induction false} OffPathFieldKept(fs: LFields, lx: Layout, p: string, fs': LFields, q: string)
    requires Diverge(p, q) && FieldWritten(fs, lx, Next(p).0, Next(p).1, fs') && FieldAt(fs, Next(q).0, Next(q).1).Some?
    ensures FieldAt(fs', Next(q).0, Next(q).1) == FieldAt(fs, Next(q).0, Next(q).1)
    decreases |p|, 0, fs
  {
    match fs
    case LField(n, v, rest) =>
      if n != Next(p).0 {
        if n != Next(q).0 {
          OffPathFieldKept(rest, lx, p, fs'.rest, q);
        }
      } else if n == Next(q).0 {
        OffPathPointersKept(v, lx, Next(p).1, fs'.val, Next(q).1);
      }
    case _ =>
  }

  /** `q` stops somewhere on the way to the end of `p`. */
  predicate Leads(q: string, p: string)
    decreases |q|
  {
    p != "" && (q == "" || (Next(q).0 == Next(p).0 && Next(p).1 != "" && (Next(q).1 == "" || Leads(Next(q).1, Next(p).1))))
  }

  /** On the way to the end of the path every pointer that was not nil keeps its cell. */
  lemma {:induction false} OnPathPointersKept(l: Layout, lx: Layout, p: string, l': Layout, q: string)
    requires WrittenAt(l, lx, p, l') && Leads(q, p) && At(l, q).Some? && At(l, q).value.LPtr?
    ensures At(l', q).Some? && At(l', q).value.LPtr? && At(l', q).value.cell == At(l, q).value.cell
    decreases |p|, 0, l
  {
    if q != "" {
      match l
      case LPtr(_, t) => OnPathPointersKept(t, lx, p, l'.target, q);
      case LStruct(fs) => OnPathFieldKept(fs, lx, p, l'.fields, q);
      case _ =>
    }
  }

  lemma {:induction false} OnPathFieldKept(fs: LFields, lx: Layout, p: string, fs': LFields, q: string)
    requires q != "" && Leads(q, p) && FieldWritten(fs, lx, Next(p).0, Next(p).1, fs')
    requires var m := FieldAt(fs, Next(q).0, Next(q).1); m.Some? && m.value.LPtr?
    ensures var m := FieldAt(fs', Next(q).0, Next(q).1);
            m.Some? && m.value.LPtr? && m.value.cell == FieldAt(fs, Next(q).0, Next(q).1).value.cell
    decreases |p|, 0, fs
  {
    match fs
    case LField(n, v, rest) =>
      if n != Next(p).0 {
        OnPathFieldKept(rest, lx, p, fs'.rest, q);
      } else if Next(q).1 != "" {
        OnPathPointersKept(v, lx, Next(p).1, fs'.val, Next(q).1);
      }
    case _ =>
  }

  // ---------- the writes ----------

  /** The cells of a result: cells of the target and of the assigned value, and new ones. */
  twostate predicate MadeFrom(new l': Layout, l: Layout, lx: Layout, region: set<Cell>)
  {
    forall c :: c in Cells(l') ==> (c in region && c in Cells(l) + Cells(lx)) || fresh(c)
  }

  twostate predicate FieldsMadeFrom(new fs': LFields, fs: LFields, lx: Layout, region: set<Cell>)
  {
    forall c :: c in FieldCells(fs') ==> (c in region && c in FieldCells(fs) + Cells(lx)) || fresh(c)
  }

  /** `applyValue`: what is stored afterwards. A pointer is stored as it is, so it shares its target with `x`; a plain
      value assigned to a non-nil pointer field is written through that pointer, which stays the same. */
  method Apply(into: Mem, x: Mem, ghost l: Layout, ghost lx: Layout, ghost region: set<Cell>)
    returns (m: Mem, o: Outcome, ghost l': Layout)
    requires into == Flat(l) && Holds(l) && x == Flat(lx) && Holds(lx)
    requires Cells(l) !! Cells(lx) && Cells(l) + Cells(lx) <= region
    modifies Cells(l)
    ensures o == ApplyValue(ValOf(l), ValOf(lx)).1
    ensures o != Panics ==> m == Flat(l') && Holds(l') && ValOf(l') == ApplyValue(ValOf(l), ValOf(lx)).0
    ensures MadeFrom(l', l, lx, region)
    ensures o != Panics ==> Assigned(l, lx, l')
  {
    m, l' := into, l;
    if Deref(MemType(into)) != Deref(MemType(x)) {
      o := Failed(TypeMismatch);
    } else if into.MPtr? {
      if x.MPtr? {
        if MemType(x) != MemType(into) {
          o := Panics;
        } else {
          m, o, l' := x, Done, lx;
        }
      } else if Ptr(MemType(x)) != MemType(into) {
        o := Panics;
      } else if into.cell == null {
        var cell := new Cell(x);
        m, o, l' := MPtr(into.elem, cell), Done, LPtr(cell, lx);
      } else {
        into.cell.content := x;
        o, l' := Done, LPtr(into.cell, lx);
      }
    } else if x.MPtr? {
      if x.cell == null || MemType(x.cell.content) != MemType(into) {
        o := Panics;
      } else {
        m, o, l' := x.cell.content, Done, lx.target;
      }
    } else {
      m, o, l' := x, Done, lx;
    }
  }

  /** `SetValueAtPath`: the memory afterwards holds exactly the value of the specification. Pointers that were not nil
      keep their cells, and only cells of the target are written. */
  method Set(into: Mem, x: Mem, path: string, ghost l: Layout, ghost lx: Layout, ghost region: set<Cell>)
    returns (m: Mem, o: Outcome, ghost l': Layout)
    requires into == Flat(l) && Holds(l) && x == Flat(lx) && Holds(lx)
    requires Cells(l) !! Cells(lx) && Cells(l) + Cells(lx) <= region
    modifies Cells(l)
    ensures o == SetValueAtPath(ValOf(l), ValOf(lx), path).1
    ensures o != Panics ==> m == Flat(l') && Holds(l') && ValOf(l') == SetValueAtPath(ValOf(l), ValOf(lx), path).0
    ensures o != Panics ==> MadeFrom(l', l, lx, region)
    ensures o != Panics ==> WrittenAt(l, lx, path, l')
    decreases |path|, 0, MemType(into)
  {
    m, l' := into, l;
    match into {
      case MPtr(elem, cell) =>
        if cell == null {
          var made := new Cell(ZeroMem(elem));
          var content;
          ghost var target;
          content, o, target := Set(made.content, x, path, ZeroLayout(elem), lx, region);
          made.content := content;
          SetThenGet(Zero(elem), ValOf(lx), path);
          m, l' := MPtr(elem, made), LPtr(made, target);
        } else {
          var content;
          ghost var target;
          content, o, target := Set(cell.content, x, path, l.target, lx, region);
          cell.content := content;
          SetThenGet(ValOf(l.target), ValOf(lx), path);
          l' := LPtr(cell, target);
        }
      case MSlice(_, _) => o := Failed(NotInSlice);
      case MStruct(fs) =>
        if path == "" {
          o := Failed(NoField);
        } else {
          var fs';
          ghost var lfs;
          fs', o, lfs := SetInFields(fs, x, Next(path).0, Next(path).1, l.fields, lx, region);
          m, l' := MStruct(fs'), LStruct(lfs);
        }
      case MPrim(_, _) => o := Failed(NotInKind);
    }
  }

  method SetInFields(fs: MFields, x: Mem, head: string, tail: string, ghost l: LFields, ghost lx: Layout, ghost region: set<Cell>)
    returns (m: MFields, o: Outcome, ghost l': LFields)
    requires fs == FlatFields(l) && FieldsHold(l) && x == Flat(lx) && Holds(lx)
    requires FieldCells(l) !! Cells(lx) && FieldCells(l) + Cells(lx) <= region
    modifies FieldCells(l)
    ensures o == SetField(ValsOf(l), ValOf(lx), head, tail).1
    ensures o != Panics ==> m == FlatFields(l') && FieldsHold(l') && ValsOf(l') == SetField(ValsOf(l), ValOf(lx), head, tail).0
    ensures o != Panics ==> FieldsMadeFrom(l', l, lx, region)
    ensures o != Panics ==> FieldWritten(l, lx, head, tail, l')
    decreases |tail|, 1, fs
  {
    m, l' := fs, l;
    match fs {
      case MNone => o := Failed(NoField);
      case MField(n, v, rest) =>
        if n != head {
          var rest';
          ghost var lrest;
          rest', o, lrest := SetInFields(rest, x, head, tail, l.rest, lx, region);
          m, l' := MField(n, v, rest'), LField(n, l.val, lrest);
        } else {
          var v';
          ghost var lv;
          if tail == "" {
            v', o, lv := Apply(v, x, l.val, lx, region);
          } else {
            v', o, lv := Set(v, x, tail, l.val, lx, region);
          }
          m, l' := MField(n, v', rest), LField(n, lv, l.rest);
        }
    }
  }
}
