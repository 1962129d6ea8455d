/** Dynamic values in memory: what is shared and what is new after a conversion or a copy. */
module ValueMemory {
  import opened Keccak
  import opened Values

  /** What a slice, a map or a big integer refers to: a backing array, a table, a number. */
  class Store<T> {
    var content: T
    constructor (content: T)
      ensures this.content == content
    {
      this.content := content;
    }
  }

  /** The structs Bytes, BigInt, List and Map: one field that refers to a store. */
  class Box<T> {
    var underlying: Store<T>
    constructor (underlying: Store<T>)
      ensures this.underlying == underlying
    {
      this.underlying := underlying;
    }
  }

  datatype Value =
    | Nil
    | String(s: string)
    | Bool(b: bool)
    | Int64(i: int)
    | Decimal(coefficient: int, exponent: int)
    | Bytes(bytes: Box<seq<byte>>)
    | BigInt(big: Box<int>)
    | List(list: Box<seq<Value>>)
    | Map(map_: Box<map<string, Value>>)

  /** A message in memory. Its byte strings refer to backing arrays that others may hold, too. */
  datatype Wire =
    | WNothing
    | WString(s: string)
    | WBool(b: bool)
    | WInt64(i: int)
    | WDecimal(coefficientAbs: seq<byte>, coefficientSign: int, exponent: int)
    | WBytes(bytes: Store<seq<byte>>)
    | WBigInt(absVal: seq<byte>, sign: int)
    | WList(items: seq<Wire>)
    | WMap(entries: map<string, Wire>)

  // ---------- memory and the data it holds ----------

  /** A value together with the objects that hold it. */
  datatype Layout =
    | LNil
    | LString(s: string)
    | LBool(b: bool)
    | LInt64(i: int)
    | LDecimal(coefficient: int, exponent: int)
    | LBytes(bytesBox: Box<seq<byte>>, bytesStore: Store<seq<byte>>, bytes: seq<byte>)
    | LBigInt(bigBox: Box<int>, bigStore: Store<int>, n: int)
    | LList(listBox: Box<seq<Value>>, listStore: Store<seq<Value>>, items: seq<Layout>)
    | LMap(mapBox: Box<map<string, Value>>, mapStore: Store<map<string, Value>>, entries: map<string, Layout>)

  /** The value at the top of a layout. */
  ghost function Top(l: Layout): Value {
    match l
    case LNil => Nil
    case LString(s) => String(s)
    case LBool(b) => Bool(b)
    case LInt64(i) => Int64(i)
    case LDecimal(c, e) => Decimal(c, e)
    case LBytes(o, _, _) => Bytes(o)
    case LBigInt(o, _, _) => BigInt(o)
    case LList(o, _, _) => List(o)
    case LMap(o, _, _) => Map(o)
  }

  ghost function DataOf(l: Layout): Data {
    match l
    case LNil => DNil
    case LString(s) => DString(s)
    case LBool(b) => DBool(b)
    case LInt64(i) => DInt64(i)
    case LDecimal(c, e) => DDecimal(c, e)
    case LBytes(_, _, bytes) => DBytes(bytes)
    case LBigInt(_, _, n) => DBigInt(n)
    case LList(_, _, items) => DList(seq(|items|, k requires 0 <= k < |items| => DataOf(items[k])))
    case LMap(_, _, entries) => DMap(map key | key in entries :: DataOf(entries[key]))
  }

  /** The layout's objects are in `region` and hold what the layout says. */
  ghost predicate Holds(l: Layout, region: set<object>)
    reads region
    decreases l
  {
    match l
    case LBytes(o, st, bytes) => o in region && st in region && o.underlying == st && st.content == bytes
    case LBigInt(o, st, n) => o in region && st in region && o.underlying == st && st.content == n
    case LList(o, st, items) =>
      && o in region && st in region && o.underlying == st && |st.content| == |items|
      && forall k :: 0 <= k < |items| ==> st.content[k] == Top(items[k]) && Holds(items[k], region)
    case LMap(o, st, entries) =>
      && o in region && st in region && o.underlying == st && st.content.Keys == entries.Keys
      && forall key :: key in entries ==> st.content[key] == Top(entries[key]) && Holds(entries[key], region)
    case _ => true
  }

  /** `v` is in memory the value described by `l`, held by objects of `region` only. */
  ghost predicate Represents(v: Value, l: Layout, region: set<object>)
    reads region
  {
    v == Top(l) && Holds(l, region)
  }

  /** `w` is in memory the message `p`, with its backing arrays in `region`. */
  ghost predicate Carries(w: Wire, p: Message, region: set<object>)
    reads region
    decreases p
  {
    match p
    case PNothing => w == WNothing
    case PString(s) => w == WString(s)
    case PBool(b) => w == WBool(b)
    case PInt64(i) => w == WInt64(i)
    case PDecimal(a, sign, e) => w == WDecimal(a, sign, e)
    case PBytes(bytes) => w.WBytes? && w.bytes in region && w.bytes.content == bytes
    case PBigInt(a, sign) => w == WBigInt(a, sign)
    case PList(items) =>
      w.WList? && |w.items| == |items| && forall k :: 0 <= k < |items| ==> Carries(w.items[k], items[k], region)
    case PMap(entries) =>
      && w.WMap? && w.entries.Keys == entries.Keys
      && forall key :: key in entries ==> Carries(w.entries[key], entries[key], region)
  }

  /** The backing arrays of the byte strings in a value. */
  ghost function ByteStores(l: Layout): set<object> {
    match l
    case LBytes(_, st, _) => {st}
    case LList(_, _, items) => set k, o | 0 <= k < |items| && o in ByteStores(items[k]) :: o
    case LMap(_, _, entries) => set key, o | key in entries && o in ByteStores(entries[key]) :: o
    case _ => {}
  }

  ghost function WireStores(w: Wire): set<object> {
    match w
    case WBytes(st) => {st}
    case WList(items) => set k, o | 0 <= k < |items| && o in WireStores(items[k]) :: o
    case WMap(entries) => set key, o | key in entries && o in WireStores(entries[key]) :: o
    case _ => {}
  }

  /** All other objects of a value: the structs, numbers, lists and tables. */
  ghost function Owned(l: Layout): set<object> {
    match l
    case LBytes(o, _, _) => {o}
    case LBigInt(o, st, _) => {o, st}
    case LList(b, st, items) => {b, st} + set k, o | 0 <= k < |items| && o in Owned(items[k]) :: o
    case LMap(b, st, entries) => {b, st} + set key, o | key in entries && o in Owned(entries[key]) :: o
    case _ => {}
  }

  ghost function Objects(l: Layout): set<object> {
    Owned(l) + ByteStores(l)
  }

  lemma {:induction false} HeldWithin(l: Layout, region: set<object>)
    requires Holds(l, region)
    ensures Objects(l) <= region
    decreases l
  {
    match l
    case LList(_, _, items) =>
      forall k | 0 <= k < |items|
        ensures Objects(items[k]) <= region
      {
        HeldWithin(items[k], region);
      }
    case LMap(_, _, entries) =>
      forall key | key in entries
        ensures Objects(entries[key]) <= region
      {
        HeldWithin(entries[key], region);
      }
    case _ =>
  }

  lemma {:induction false} Widen(l: Layout, region: set<object>, wider: set<object>)
    requires Holds(l, region) && region <= wider
    ensures Holds(l, wider)
    decreases l
  {
    match l
    case LList(_, _, items) =>
      forall k | 0 <= k < |items|
        ensures Holds(items[k], wider)
      {
        Widen(items[k], region, wider);
      }
    case LMap(_, _, entries) =>
      forall key | key in entries
        ensures Holds(entries[key], wider)
      {
        Widen(entries[key], region, wider);
      }
    case _ =>
  }

  lemma WidenAll(items: seq<Layout>, region: set<object>, wider: set<object>)
    requires region <= wider && forall k :: 0 <= k < |items| ==> Holds(items[k], region)
    ensures forall k :: 0 <= k < |items| ==> Holds(items[k], wider)
  {
    hide Holds;
    forall k | 0 <= k < |items|
      ensures Holds(items[k], wider)
    {
      Widen(items[k], region, wider);
    }
  }

  lemma WidenEntries(entries: map<string, Layout>, region: set<object>, wider: set<object>)
    requires region <= wider && forall key :: key in entries ==> Holds(entries[key], region)
    ensures forall key :: key in entries ==> Holds(entries[key], wider)
  {
    hide Holds;
    forall key | key in entries
      ensures Holds(entries[key], wider)
    {
      Widen(entries[key], region, wider);
    }
  }

  lemma ListHolds(box: Box<seq<Value>>, store: Store<seq<Value>>, items: seq<Layout>, region: set<object>)
    requires box.underlying == store && |store.content| == |items|
    requires forall k :: 0 <= k < |items| ==> store.content[k] == Top(items[k]) && Holds(items[k], region)
    ensures Holds(LList(box, store, items), region + {box, store})
  {
    WidenAll(items, region, region + {box, store});
  }

  lemma MapHolds(box: Box<map<string, Value>>, store: Store<map<string, Value>>, entries: map<string, Layout>, region: set<object>)
    requires box.underlying == store && store.content.Keys == entries.Keys
    requires forall key :: key in entries ==> store.content[key] == Top(entries[key]) && Holds(entries[key], region)
    ensures Holds(LMap(box, store, entries), region + {box, store})
  {
    WidenEntries(entries, region, region + {box, store});
  }

  lemma ListData(box: Box<seq<Value>>, store: Store<seq<Value>>, items: seq<Layout>, data: Data)
    requires data.DList? && |items| == |data.items|
    requires forall k :: 0 <= k < |items| ==> DataOf(items[k]) == data.items[k]
    ensures DataOf(LList(box, store, items)) == data
  {
    assert DataOf(LList(box, store, items)).items == data.items;
  }

  lemma MapData(box: Box<map<string, Value>>, store: Store<map<string, Value>>, entries: map<string, Layout>, data: Data)
    requires data.DMap? && entries.Keys == data.entries.Keys
    requires forall key :: key in entries ==> DataOf(entries[key]) == data.entries[key]
    ensures DataOf(LMap(box, store, entries)) == data
  {
    assert DataOf(LMap(box, store, entries)).entries == data.entries;
  }

  lemma EncodedItems(data: Data)
    requires data.DList?
    ensures Encode(data).PList? && |Encode(data).items| == |data.items|
    ensures forall k :: 0 <= k < |data.items| ==> Encode(data).items[k] == Encode(data.items[k])
  {
  }

  lemma EncodedEntries(data: Data)
    requires data.DMap?
    ensures Encode(data).PMap? && Encode(data).entries.Keys == data.entries.Keys
    ensures forall key :: key in data.entries ==> Encode(data).entries[key] == Encode(data.entries[key])
  {
  }

  /** The elements of a list message in memory, and what they decode to. */
  lemma CarriedItems(w: Wire, p: Message, region: set<object>)
    requires w.WList? && Carries(w, p, region)
    ensures p.PList? && |p.items| == |w.items| && Decode(p).DList? && |Decode(p).items| == |p.items|
    ensures forall k :: 0 <= k < |w.items| ==> Carries(w.items[k], p.items[k], region) && Decode(p).items[k] == Decode(p.items[k])
  {
  }

  lemma CarriedEntries(w: Wire, p: Message, region: set<object>)
    requires w.WMap? && Carries(w, p, region)
    ensures p.PMap? && p.entries.Keys == w.entries.Keys && Decode(p).DMap? && Decode(p).entries.Keys == p.entries.Keys
    ensures forall key :: key in w.entries ==>
              Carries(w.entries[key], p.entries[key], region) && Decode(p).entries[key] == Decode(p.entries[key])
  {
  }

  lemma ItemsOf(l: Layout)
    requires l.LList?
    ensures DataOf(l).DList? && |DataOf(l).items| == |l.items|
    ensures forall k :: 0 <= k < |l.items| ==> DataOf(l).items[k] == DataOf(l.items[k])
  {
  }

  lemma EntriesOf(l: Layout)
    requires l.LMap?
    ensures DataOf(l).DMap? && DataOf(l).entries.Keys == l.entries.Keys
    ensures forall key :: key in l.entries ==> DataOf(l).entries[key] == DataOf(l.entries[key])
  {
  }

  /** A list made of parts that share a message's backing arrays shares the list message's. */
  lemma ListShares(box: Box<seq<Value>>, store: Store<seq<Value>>, items: seq<Layout>, messages: seq<Wire>, made: set<object>)
    requires |items| == |messages|
    requires forall k :: 0 <= k < |items| ==> ByteStores(items[k]) == WireStores(messages[k])
    ensures ByteStores(LList(box, store, items)) == WireStores(WList(messages))
    ensures (forall k :: 0 <= k < |items| ==> Owned(items[k]) <= made) ==>
              Owned(LList(box, store, items)) <= made + {box, store}
  {
  }

  lemma MapShares(box: Box<map<string, Value>>, store: Store<map<string, Value>>, entries: map<string, Layout>,
                  messages: map<string, Wire>, made: set<object>)
    requires entries.Keys == messages.Keys
    requires forall key :: key in entries ==> ByteStores(entries[key]) == WireStores(messages[key])
    ensures ByteStores(LMap(box, store, entries)) == WireStores(WMap(messages))
    ensures (forall key :: key in entries ==> Owned(entries[key]) <= made) ==>
              Owned(LMap(box, store, entries)) <= made + {box, store}
  {
  }

  /** Taking one key off the keys still to do. */
  lemma OneKeyLess(all: set<string>, todo: set<string>, key: string)
    requires key in todo && todo <= all
    ensures key !in all - todo && all - (todo - {key}) == all - todo + {key}
  {
  }

  // ---------- Proto ----------

  /** `Proto`: the message carries the encoding of the data, and refers to the value's own backing arrays. */
  method Proto(v: Value, ghost l: Layout, ghost region: set<object>) returns (w: Wire)
    requires Represents(v, l, region)
    ensures Carries(w, Encode(DataOf(l)), region)
    ensures WireStores(w) == ByteStores(l)
    decreases l, 1
  {
    match v {
      case Nil => return WNothing;
      case String(s) => return WString(s);
      case Bool(b) => return WBool(b);
      case Int64(i) => return WInt64(i);
      case Decimal(c, e) => return WDecimal(Magnitude(Abs(c)), Sign(c), e);
      case Bytes(o) => return WBytes(o.underlying);
      case BigInt(o) => return WBigInt(Magnitude(Abs(o.underlying.content)), Sign(o.underlying.content));
      case List(o) => w := ListProto(o.underlying.content, l, region);
      case Map(o) => w := MapProto(o.underlying.content, l, region);
    }
  }

  method ListProto(items: seq<Value>, ghost l: Layout, ghost region: set<object>) returns (w: Wire)
    requires l.LList? && |items| == |l.items| && forall k :: 0 <= k < |items| ==> Represents(items[k], l.items[k], region)
    ensures Carries(w, Encode(DataOf(l)), region)
    ensures WireStores(w) == ByteStores(l)
    decreases l, 0
  {
    hide Holds, DataOf, Encode, ByteStores, WireStores;
    ItemsOf(l);
    EncodedItems(DataOf(l));
    var messages: seq<Wire> := [];
    for k := 0 to |items|
      invariant |messages| == k
      invariant forall j :: 0 <= j < k ==> Carries(messages[j], Encode(DataOf(l.items[j])), region)
      invariant forall j :: 0 <= j < k ==> ByteStores(l.items[j]) == WireStores(messages[j])
    {
      var m := Proto(items[k], l.items[k], region);
      messages := messages + [m];
    }
    ListShares(l.listBox, l.listStore, l.items, messages, {});
    return WList(messages);
  }

  method MapProto(entries: map<string, Value>, ghost l: Layout, ghost region: set<object>) returns (w: Wire)
    requires l.LMap? && entries.Keys == l.entries.Keys
    requires forall key :: key in entries ==> Represents(entries[key], l.entries[key], region)
    ensures Carries(w, Encode(DataOf(l)), region)
    ensures WireStores(w) == ByteStores(l)
    decreases l, 0
  {
    hide Holds, DataOf, Encode, ByteStores, WireStores;
    EntriesOf(l);
    EncodedEntries(DataOf(l));
    var messages: map<string, Wire> := map[];
    var todo := entries.Keys;
    while todo != {}
      invariant todo <= entries.Keys && messages.Keys == entries.Keys - todo
      invariant forall key :: key in messages ==> Carries(messages[key], Encode(DataOf(l.entries[key])), region)
      invariant forall key :: key in messages ==> ByteStores(l.entries[key]) == WireStores(messages[key])
      decreases todo
    {
      var key :| key in todo;
      OneKeyLess(entries.Keys, todo, key);
      var m := Proto(entries[key], l.entries[key], region);
      messages := messages[key := m];
      todo := todo - {key};
    }
    MapShares(l.mapBox, l.mapStore, l.entries, messages, {});
    return WMap(messages);
  }

  // ---------- Copy ----------

  /** `Copy`: an equal value held by new objects only, backing arrays included; the original is untouched. */
  method Copy(v: Value, ghost l: Layout, ghost region: set<object>)
    returns (c: Value, ghost l': Layout, ghost made: set<object>)
    requires Represents(v, l, region)
    ensures fresh(made) && Represents(c, l', made) && DataOf(l') == DataOf(l)
    decreases l, 1
  {
    made := {};
    match v {
      case Bytes(o) =>
        var dest := new Store(o.underlying.content);
        var box := new Box(dest);
        return Bytes(box), LBytes(box, dest, dest.content), {box, dest};
      case BigInt(o) =>
        var nw := new Store(o.underlying.content);
        var box := new Box(nw);
        return BigInt(box), LBigInt(box, nw, nw.content), {box, nw};
      case List(o) => c, l', made := CopyList(o.underlying.content, l, region);
      case Map(o) => c, l', made := CopyMap(o.underlying.content, l, region);
      case _ => return v, l, {};
    }
  }

  method CopyList(items: seq<Value>, ghost l: Layout, ghost region: set<object>)
    returns (c: Value, ghost l': Layout, ghost made: set<object>)
    requires l.LList? && |items| == |l.items| && forall k :: 0 <= k < |items| ==> Represents(items[k], l.items[k], region)
    ensures fresh(made) && Represents(c, l', made) && DataOf(l') == DataOf(l)
    decreases l, 0
  {
    hide Holds, DataOf;
    var dest: seq<Value> := [];
    ghost var layouts: seq<Layout> := [];
    made := {};
    for k := 0 to |items|
      invariant |dest| == |layouts| == k && fresh(made)
      invariant forall j :: 0 <= j < k ==> dest[j] == Top(layouts[j]) && Holds(layouts[j], made)
      invariant forall j :: 0 <= j < k ==> DataOf(layouts[j]) == DataOf(l.items[j])
    {
      var e, le, more := Copy(items[k], l.items[k], region);
      WidenAll(layouts, made, made + more);
      Widen(le, more, made + more);
      dest, layouts, made := dest + [e], layouts + [le], made + more;
    }
    var store := new Store(dest);
    var box := new Box(store);
    ListHolds(box, store, layouts, made);
    ItemsOf(l);
    ListData(box, store, layouts, DataOf(l));
    c, l', made := List(box), LList(box, store, layouts), made + {box, store};
  }

  method CopyMap(entries: map<string, Value>, ghost l: Layout, ghost region: set<object>)
    returns (c: Value, ghost l': Layout, ghost made: set<object>)
    requires l.LMap? && entries.Keys == l.entries.Keys
    requires forall key :: key in entries ==> Represents(entries[key], l.entries[key], region)
    ensures fresh(made) && Represents(c, l', made) && DataOf(l') == DataOf(l)
    decreases l, 0
  {
    hide Holds, DataOf;
    var dest: map<string, Value> := map[];
    ghost var layouts: map<string, Layout> := map[];
    made := {};
    var todo := entries.Keys;
    while todo != {}
      invariant todo <= entries.Keys && dest.Keys == layouts.Keys == entries.Keys - todo && fresh(made)
      invariant forall key :: key in layouts ==> dest[key] == Top(layouts[key]) && Holds(layouts[key], made)
      invariant forall key :: key in layouts ==> DataOf(layouts[key]) == DataOf(l.entries[key])
      decreases todo
    {
      var key :| key in todo;
      OneKeyLess(entries.Keys, todo, key);
      var e, le, more := Copy(entries[key], l.entries[key], region);
      WidenEntries(layouts, made, made + more);
      Widen(le, more, made + more);
      dest, layouts, made := dest[key := e], layouts[key := le], made + more;
      todo := todo - {key};
    }
    var store := new Store(dest);
    var box := new Box(store);
    MapHolds(box, store, layouts, made);
    EntriesOf(l);
    MapData(box, store, layouts, DataOf(l));
    c, l', made := Map(box), LMap(box, store, layouts), made + {box, store};
  }

  // ---------- FromProto ----------

  /** `v` is the value of the message: its backing arrays are exactly the message's own, everything else is in `made`. */
  ghost predicate Decoded(v: Value, l: Layout, w: Wire, p: Message, made: set<object>, region: set<object>)
    reads made, region
  {
    && Represents(v, l, made + region) && DataOf(l) == Decode(p)
    && ByteStores(l) == WireStores(w) && Owned(l) <= made
  }

  lemma WidenDecoded(v: Value, l: Layout, w: Wire, p: Message, made: set<object>, wider: set<object>, region: set<object>)
    requires made <= wider && Decoded(v, l, w, p, made, region)
    ensures Decoded(v, l, w, p, wider, region)
  {
    hide Holds, DataOf, Decode, ByteStores, WireStores, Owned;
    Widen(l, made + region, wider + region);
  }

  ghost predicate DecodedItems(vs: seq<Value>, ls: seq<Layout>, ws: seq<Wire>, ps: seq<Message>, made: set<object>, region: set<object>)
    reads made, region
  {
    && |vs| == |ls| <= |ws| && |vs| <= |ps|
    && forall k :: 0 <= k < |vs| ==> Decoded(vs[k], ls[k], ws[k], ps[k], made, region)
  }

  ghost predicate DecodedEntries(vs: map<string, Value>, ls: map<string, Layout>, ws: map<string, Wire>, ps: map<string, Message>,
                                 made: set<object>, region: set<object>)
    reads made, region
  {
    && vs.Keys == ls.Keys <= ws.Keys && vs.Keys <= ps.Keys
    && forall key :: key in vs.Keys ==> Decoded(vs[key], ls[key], ws[key], ps[key], made, region)
  }

  lemma DecodedOneMore(vs: seq<Value>, ls: seq<Layout>, ws: seq<Wire>, ps: seq<Message>, v: Value, l: Layout,
                       made: set<object>, more: set<object>, region: set<object>)
    requires DecodedItems(vs, ls, ws, ps, made, region) && |vs| < |ws| && |vs| < |ps|
    requires Decoded(v, l, ws[|vs|], ps[|vs|], more, region)
    ensures DecodedItems(vs + [v], ls + [l], ws, ps, made + more, region)
  {
    hide Decoded;
    forall k | 0 <= k < |vs|
      ensures Decoded(vs[k], ls[k], ws[k], ps[k], made + more, region)
    {
      WidenDecoded(vs[k], ls[k], ws[k], ps[k], made, made + more, region);
    }
    WidenDecoded(v, l, ws[|vs|], ps[|vs|], more, made + more, region);
  }

  lemma DecodedEntryMore(vs: map<string, Value>, ls: map<string, Layout>, ws: map<string, Wire>, ps: map<string, Message>,
                         key: string, v: Value, l: Layout, made: set<object>, more: set<object>, region: set<object>)
    requires DecodedEntries(vs, ls, ws, ps, made, region) && key in ws && key in ps && key !in vs
    requires Decoded(v, l, ws[key], ps[key], more, region)
    ensures DecodedEntries(vs[key := v], ls[key := l], ws, ps, made + more, region)
  {
    hide Decoded;
    forall x | x in vs
      ensures Decoded(vs[x], ls[x], ws[x], ps[x], made + more, region)
    {
      WidenDecoded(vs[x], ls[x], ws[x], ps[x], made, made + more, region);
    }
    WidenDecoded(v, l, ws[key], ps[key], more, made + more, region);
  }

  lemma DecodedList(box: Box<seq<Value>>, store: Store<seq<Value>>, ls: seq<Layout>, w: Wire, p: Message,
                    made: set<object>, region: set<object>)
    requires w.WList? && Carries(w, p, region) && box.underlying == store && |ls| == |w.items|
    requires p.PList? && DecodedItems(store.content, ls, w.items, p.items, made, region)
    ensures Decoded(List(box), LList(box, store, ls), w, p, made + {box, store}, region)
  {
    CarriedItems(w, p, region);
    ListHolds(box, store, ls, made + region);
    hide Holds, DataOf, Decode, ByteStores, WireStores, Owned;
    ListData(box, store, ls, Decode(p));
    ListShares(box, store, ls, w.items, made);
    assert made + region + {box, store} == made + {box, store} + region;
  }

  lemma DecodedMap(box: Box<map<string, Value>>, store: Store<map<string, Value>>, ls: map<string, Layout>, w: Wire, p: Message,
                   made: set<object>, region: set<object>)
    requires w.WMap? && Carries(w, p, region) && box.underlying == store && store.content.Keys == w.entries.Keys
    requires p.PMap? && DecodedEntries(store.content, ls, w.entries, p.entries, made, region)
    ensures Decoded(Map(box), LMap(box, store, ls), w, p, made + {box, store}, region)
  {
    CarriedEntries(w, p, region);
    MapHolds(box, store, ls, made + region);
    hide Holds, DataOf, Decode, ByteStores, WireStores, Owned;
    MapData(box, store, ls, Decode(p));
    MapShares(box, store, ls, w.entries, made);
    assert made + region + {box, store} == made + {box, store} + region;
  }

  /** `FromProto`: the decoded value. Its backing arrays are exactly the message's own; everything else is new. */
  method FromProto(w: Wire, ghost p: Message, ghost region: set<object>)
    returns (v: Value, ghost l: Layout, ghost made: set<object>)
    requires Carries(w, p, region)
    ensures fresh(made) && Decoded(v, l, w, p, made, region)
    decreases p, 2
  {
    made := {};
    match w {
      case WNothing => return Nil, LNil, {};
      case WString(s) => return String(s), LString(s), {};
      case WBool(b) => return Bool(b), LBool(b), {};
      case WInt64(i) => return Int64(i), LInt64(i), {};
      case WDecimal(a, sign, e) =>
        return Decimal(SignedMagnitude(a, sign), e), LDecimal(SignedMagnitude(a, sign), e), {};
      case WBytes(store) =>
        var box := new Box(store);
        return Bytes(box), LBytes(box, store, store.content), {box};
      case WBigInt(a, sign) =>
        var av := new Store(SignedMagnitude(a, sign));
        var box := new Box(av);
        return BigInt(box), LBigInt(box, av, av.content), {box, av};
      case WList(_) => v, l, made := FromListProto(w, p, region);
      case WMap(_) => v, l, made := FromMapProto(w, p, region);
    }
  }

  method FromListProto(w: Wire, ghost p: Message, ghost region: set<object>)
    returns (v: Value, ghost l: Layout, ghost made: set<object>)
    requires w.WList? && Carries(w, p, region)
    ensures fresh(made) && Decoded(v, l, w, p, made, region)
    decreases p, 0
  {
    CarriedItems(w, p, region);
    hide *;
    var values: seq<Value> := [];
    ghost var layouts: seq<Layout> := [];
    made := {};
    NothingDecoded(w, p, region);
    for k := 0 to |w.items|
      invariant |values| == |layouts| == k && fresh(made)
      invariant DecodedItems(values, layouts, w.items, p.items, made, region)
    {
      var e, le, more := FromProto(w.items[k], p.items[k], region);
      DecodedOneMore(values, layouts, w.items, p.items, e, le, made, more, region);
      values, layouts, made := values + [e], layouts + [le], made + more;
    }
    var store := new Store(values);
    var box := new Box(store);
    DecodedList(box, store, layouts, w, p, made, region);
    v, l, made := List(box), LList(box, store, layouts), made + {box, store};
  }

  lemma NothingDecoded(w: Wire, p: Message, region: set<object>)
    ensures w.WList? && p.PList? ==> DecodedItems([], [], w.items, p.items, {}, region)
    ensures w.WMap? && p.PMap? ==> DecodedEntries(map[], map[], w.entries, p.entries, {}, region)
  {
  }

  /** One turn of the loop over the fields of a map. */
  method FromEntry(w: Wire, ghost p: Message, ghost region: set<object>, key: string,
                   values: map<string, Value>, ghost layouts: map<string, Layout>, ghost made: set<object>)
    returns (values': map<string, Value>, ghost layouts': map<string, Layout>, ghost made': set<object>)
    requires w.WMap? && Carries(w, p, region) && key in w.entries && key !in values
    requires p.PMap? && DecodedEntries(values, layouts, w.entries, p.entries, made, region)
    ensures values'.Keys == values.Keys + {key} && made <= made' && fresh(made' - made)
    ensures DecodedEntries(values', layouts', w.entries, p.entries, made', region)
    decreases p, 0
  {
    CarriedEntries(w, p, region);
    hide *;
    var e, le, more := FromProto(w.entries[key], p.entries[key], region);
    DecodedEntryMore(values, layouts, w.entries, p.entries, key, e, le, made, more, region);
    values', layouts', made' := values[key := e], layouts[key := le], made + more;
  }

  method FromMapProto(w: Wire, ghost p: Message, ghost region: set<object>)
    returns (v: Value, ghost l: Layout, ghost made: set<object>)
    requires w.WMap? && Carries(w, p, region)
    ensures fresh(made) && Decoded(v, l, w, p, made, region)
    decreases p, 1
  {
    CarriedEntries(w, p, region);
    hide *;
    var values: map<string, Value> := map[];
    ghost var layouts: map<string, Layout> := map[];
    made := {};
    NothingDecoded(w, p, region);
    var todo := w.entries.Keys;
    while todo != {}
      invariant todo <= w.entries.Keys && values.Keys == w.entries.Keys - todo && fresh(made)
      invariant DecodedEntries(values, layouts, w.entries, p.entries, made, region)
      decreases todo
    {
      var key :| key in todo;
      OneKeyLess(w.entries.Keys, todo, key);
      values, layouts, made := FromEntry(w, p, region, key, values, layouts, made);
      todo := todo - {key};
    }
    var store := new Store(values);
    var box := new Box(store);
    DecodedMap(box, store, layouts, w, p, made, region);
    v, l, made := Map(box), LMap(box, store, layouts), made + {box, store};
  }

  // ---------- there and back ----------

  /** `FromProto(Proto(v))`: an equal value that shares with the original exactly the backing arrays of its byte
      strings; it is disjoint from the original exactly when there are none. */
  method ThereAndBack(v: Value, ghost l: Layout, ghost region: set<object>)
    returns (v': Value, ghost l': Layout, ghost made: set<object>)
    requires Represents(v, l, region)
    ensures fresh(made) && Represents(v', l', made + region) && DataOf(l') == DataOf(l)
    ensures Owned(l') <= made
    ensures Objects(l') * Objects(l) == ByteStores(l') == ByteStores(l)
    ensures Objects(l') !! Objects(l) <==> ByteStores(l) == {}
  {
    var w := Proto(v, l, region);
    v', l', made := FromProto(w, Encode(DataOf(l)), region);
    DecodeInverts(DataOf(l));
    HeldWithin(l, region);
  }

  /** A byte written through the result shows in the original. */
  method WriteAfterThereAndBack(b: Box<seq<byte>>, i: nat, x: byte) returns (r: Box<seq<byte>>)
    requires i < |b.underlying.content|
    modifies b.underlying
    ensures fresh(r) && r.underlying == b.underlying == old(b.underlying)
    ensures b.underlying.content == old(b.underlying.content)[i := x]
  {
    ghost var l := LBytes(b, b.underlying, b.underlying.content);
    var v, l', made := ThereAndBack(Bytes(b), l, {b, b.underlying});
    assert l'.LBytes? && l'.bytesStore in ByteStores(l');
    r := v.bytes;
    r.underlying.content := r.underlying.content[i := x];
  }

  /** A byte written through a copy does not. */
  method WriteAfterCopy(b: Box<seq<byte>>, i: nat, x: byte) returns (r: Box<seq<byte>>)
    requires i < |b.underlying.content|
    ensures fresh(r) && fresh(r.underlying) && r.underlying.content == b.underlying.content[i := x]
    ensures unchanged(b) && unchanged(b.underlying)
  {
    ghost var l := LBytes(b, b.underlying, b.underlying.content);
    var v, l', made := Copy(Bytes(b), l, {b, b.underlying});
    assert l'.LBytes?;
    r := v.bytes;
    r.underlying.content := r.underlying.content[i := x];
  }
}
