/** Step inputs of a workflow, and the step references nested in them. */
module WorkflowInputs {
  import opened Options

  /** Inputs as decoded: `Null` is an untyped nil, `Other` any scalar that is not a string. The entries of a mapping
      are listed in the order in which one traversal visits them. */
  datatype Value = Null | Text(text: string) | Other | Mapping(entries: seq<Entry>) | Items(items: seq<Value>)

  datatype Entry = Entry(key: string, value: Value)

  predicate IsSpace(c: char) {
    c == ' ' || c == '\t' || c == '\n' || c == '\r' || c == '\U{000C}'
  }

  function UpToDot(s: string): string {
    if s == "" || s[0] == '.' then "" else [s[0]] + UpToDot(s[1..])
  }

  /** The step named by an interpolation `$(step.path)`, for a string that consists of just that. */
  function RefOf(s: string): Option<string> {
    if |s| >= 4 && s[..2] == "$(" && s[|s| - 1] == ')' && forall i :: 2 <= i < |s| - 1 ==> !IsSpace(s[i])
    then Some(UpToDot(s[2..|s| - 1]))
    else None
  }

  /** The references found by one traversal; none at all when it meets a nil. */
  function Refs(v: Value): Option<seq<string>>
    decreases v, 0
  {
    match v
    case Null => None
    case Text(s) => (match RefOf(s) case None => Some([]) case Some(r) => Some([r]))
    case Other => Some([])
    case Mapping(entries) => RefsOfEntries(entries, |entries|)
    case Items(items) => RefsOfItems(items, |items|)
  }

  function Joined(a: Option<seq<string>>, b: Option<seq<string>>): Option<seq<string>> {
    if a.Some? && b.Some? then Some(a.value + b.value) else None
  }

  /** The references of the first `n` entries. */
  function RefsOfEntries(entries: seq<Entry>, n: nat): Option<seq<string>>
    requires n <= |entries|
    decreases entries, n
  {
    if n == 0 then Some([]) else Joined(RefsOfEntries(entries, n - 1), Refs(entries[n - 1].value))
  }

  function RefsOfItems(items: seq<Value>, n: nat): Option<seq<string>>
    requires n <= |items|
    decreases items, n
  {
    if n == 0 then Some([]) else Joined(RefsOfItems(items, n - 1), Refs(items[n - 1]))
  }

  /** Some string anywhere inside `v` interpolates step `r`. */
  ghost predicate Mentions(v: Value, r: string) {
    match v
    case Text(s) => RefOf(s) == Some(r)
    case Mapping(entries) => exists i :: 0 <= i < |entries| && Mentions(entries[i].value, r)
    case Items(items) => exists i :: 0 <= i < |items| && Mentions(items[i], r)
    case _ => false
  }

  ghost predicate HasNull(v: Value) {
    match v
    case Null => true
    case Mapping(entries) => exists i :: 0 <= i < |entries| && HasNull(entries[i].value)
    case Items(items) => exists i :: 0 <= i < |items| && HasNull(items[i])
    case _ => false
  }

  /** A traversal fails exactly on inputs with a nil inside, and otherwise finds exactly the steps mentioned,
      whatever the order in which it visits the entries. */
  lemma {:induction false} RefsMeaning(v: Value)
    ensures Refs(v) == None <==> HasNull(v)
    ensures Refs(v).Some? ==> forall r :: r in Refs(v).value <==> Mentions(v, r)
    decreases v, 0
  {
    match v
    case Mapping(entries) => EntriesMeaning(entries, |entries|);
    case Items(items) => ItemsMeaning(items, |items|);
    case _ =>
  }

  lemma {:induction false} EntriesMeaning(entries: seq<Entry>, n: nat)
    requires n <= |entries|
    ensures RefsOfEntries(entries, n) == None <==> exists i :: 0 <= i < n && HasNull(entries[i].value)
    ensures RefsOfEntries(entries, n).Some? ==>
              forall r :: r in RefsOfEntries(entries, n).value <==> exists i :: 0 <= i < n && Mentions(entries[i].value, r)
    decreases entries, n
  {
    if n > 0 {
      EntriesMeaning(entries, n - 1);
      RefsMeaning(entries[n - 1].value);
    }
  }

  lemma {:induction false} ItemsMeaning(items: seq<Value>, n: nat)
    requires n <= |items|
    ensures RefsOfItems(items, n) == None <==> exists i :: 0 <= i < n && HasNull(items[i])
    ensures RefsOfItems(items, n).Some? ==>
              forall r :: r in RefsOfItems(items, n).value <==> exists i :: 0 <= i < n && Mentions(items[i], r)
    decreases items, n
  {
    if n > 0 {
      ItemsMeaning(items, n - 1);
      RefsMeaning(items[n - 1]);
    }
  }

  /** `findRefs`, with the traversal of `DeepMap`. */
  method FindRefs(v: Value) returns (refs: Option<seq<string>>)
    ensures refs == Refs(v)
    decreases v
  {
    match v {
      case Null => return None;
      case Other => return Some([]);
      case Text(s) =>
        match RefOf(s) {
          case None => return Some([]);
          case Some(r) => return Some([r]);
        }
      case Mapping(entries) =>
        var found := [];
        for k := 0 to |entries|
          invariant RefsOfEntries(entries, k) == Some(found)
        {
          var inner := FindRefs(entries[k].value);
          if inner == None {
            EntriesFail(entries, k + 1, |entries|);
            return None;
          }
          found := found + inner.value;
        }
        return Some(found);
      case Items(items) =>
        var found := [];
        for k := 0 to |items|
          invariant RefsOfItems(items, k) == Some(found)
        {
          var inner := FindRefs(items[k]);
          if inner == None {
            ItemsFail(items, k + 1, |items|);
            return None;
          }
          found := found + inner.value;
        }
        return Some(found);
    }
  }

  lemma {:induction false} EntriesFail(entries: seq<Entry>, k: nat, n: nat)
    requires k <= n <= |entries| && RefsOfEntries(entries, k) == None
    ensures RefsOfEntries(entries, n) == None
    decreases n
  {
    if k < n {
      EntriesFail(entries, k, n - 1);
    }
  }

  lemma {:induction false} ItemsFail(items: seq<Value>, k: nat, n: nat)
    requires k <= n <= |items| && RefsOfItems(items, k) == None
    ensures RefsOfItems(items, n) == None
    decreases n
  {
    if k < n {
      ItemsFail(items, k, n - 1);
    }
  }

  /** Visiting the entries of a mapping in another order finds the same steps. */
  lemma VisitOrderIrrelevant(entries: seq<Entry>, entries': seq<Entry>)
    requires forall e :: e in entries <==> e in entries'
    ensures Refs(Mapping(entries)) == None <==> Refs(Mapping(entries')) == None
    ensures Refs(Mapping(entries)).Some? ==>
              forall r :: r in Refs(Mapping(entries)).value <==> r in Refs(Mapping(entries')).value
  {
    RefsMeaning(Mapping(entries));
    RefsMeaning(Mapping(entries'));
    assert forall i :: 0 <= i < |entries| ==> entries[i] in entries';
    assert forall i :: 0 <= i < |entries'| ==> entries'[i] in entries;
  }

  // ---------- what an interpolation names ----------

  /** A text without white space. */
  predicate Unspaced(s: string) {
    ' ' !in s && '\t' !in s && '\n' !in s && '\r' !in s && '\U{000C}' !in s
  }

  lemma {:induction false} UpToDotSplits(step: string, rest: string)
    requires '.' !in step && (rest == "" || rest[0] == '.')
    ensures UpToDot(step + rest) == step
  {
    if step == "" {
      assert step + rest == rest;
    } else {
      assert (step + rest)[1..] == step[1..] + rest;
      UpToDotSplits(step[1..], rest);
    }
  }

  /** `$(step)` and `$(step.path)` name `step`, whatever the path is. */
  lemma InterpolationNamesStep(step: string, rest: string)
    requires '.' !in step && (rest == "" || rest[0] == '.') && step + rest != "" && Unspaced(step) && Unspaced(rest)
    ensures Refs(Text("$(" + step + rest + ")")) == Some([step])
  {
    var s := "$(" + step + rest + ")";
    assert s[2..|s| - 1] == step + rest;
    forall i | 2 <= i < |s| - 1
      ensures !IsSpace(s[i])
    {
      assert s[i] == s[2..|s| - 1][i - 2] && s[i] in step + rest;
    }
    UpToDotSplits(step, rest);
  }

  /** A text holds no reference exactly when it is not `$(`, something without white space, `)`. */
  lemma NoReferenceExactly(s: string)
    ensures Refs(Text(s)) == Some([]) <==> !exists body :: body != "" && Unspaced(body) && s == "$(" + body + ")"
  {
    if RefOf(s).Some? {
      var body := s[2..|s| - 1];
      assert s == "$(" + body + ")";
      forall c | c in body
        ensures !IsSpace(c)
      {
      }
      assert body != "" && Unspaced(body);
    } else if body :| body != "" && Unspaced(body) && s == "$(" + body + ")" {
      forall i | 2 <= i < |s| - 1
        ensures !IsSpace(s[i])
      {
        assert s[i] == body[i - 2] && s[i] in body;
      }
    }
  }

  /** References are listed in the order of the traversal. */
  lemma {:induction false} ItemsInOrder(xs: seq<Value>, ys: seq<Value>)
    ensures Refs(Items(xs + ys)) == Joined(Refs(Items(xs)), Refs(Items(ys)))
    decreases |ys|
  {
    if ys == [] {
      assert xs + ys == xs;
      var refs := Refs(Items(xs));
      assert refs.Some? ==> refs.value + [] == refs.value;
    } else {
      var n := |ys| - 1;
      ItemsInOrder(xs, ys[..n]);
      ItemsPrefix(xs + ys[..n], xs + ys, |xs| + n);
      ItemsPrefix(ys[..n], ys, n);
      Reassociated(Refs(Items(xs)), Refs(Items(ys[..n])), Refs(ys[n]));
    }
  }

  lemma Reassociated(a: Option<seq<string>>, b: Option<seq<string>>, c: Option<seq<string>>)
    ensures Joined(Joined(a, b), c) == Joined(a, Joined(b, c))
  {
    if a.Some? && b.Some? && c.Some? {
      assert (a.value + b.value) + c.value == a.value + (b.value + c.value);
    }
  }

  lemma {:induction false} ItemsPrefix(xs: seq<Value>, longer: seq<Value>, n: nat)
    requires n <= |xs| && xs <= longer
    ensures RefsOfItems(xs, n) == RefsOfItems(longer, n)
    decreases n
  {
    if n > 0 {
      ItemsPrefix(xs, longer, n - 1);
    }
  }
}
