/** Properties of the compiled query: which steps appear and in what order,
    when compilation throws, and how clause and sort mappings are read. */
module QueryLaws {
  import opened JsValue
  import opened Reql
  import opened QueryCompiler

  /** The step a descriptor entry contributes, written independently of the
      compiler: nothing for unknown keys and for `where: null`. */
  function StepOf(key: string, value: Value): seq<StepKind> {
    if key == "where" then (if value.Null? then [] else [FilterStep])
    else if key == "sort" then [OrderStep]
    else if key == "skip" then [SkipStep]
    else if key == "limit" then [LimitStep]
    else []
  }

  function ExpectedSteps(es: seq<(string, Value)>): seq<StepKind>
    decreases |es|
  {
    if es == [] then [] else StepOf(es[0].0, es[0].1) + ExpectedSteps(es[1..])
  }

  /** The entries that make `build` throw, written independently of the
      compiler: a `where` that is undefined or has a non-`or` key whose value
      is null, or a `sort` that is null or undefined. */
  predicate WhereFails(v: Value) {
    v.Undefined?
    || (!v.Null? && exists i :: 0 <= i < |OwnKeys(v).value| && OwnKeys(v).value[i].0 != "or" && OwnKeys(v).value[i].1.Null?)
  }

  predicate EntryFails(key: string, value: Value) {
    (key == "where" && WhereFails(value)) || (key == "sort" && (value.Null? || value.Undefined?))
  }

  lemma EntryFailsIff(q: Term, key: string, value: Value)
    ensures ApplyEntry(q, key, value).Err? <==> EntryFails(key, value)
  {
    if key == "where" && !value.Null? && !value.Undefined? {
      var es := OwnKeys(value).value;
      if Conditions(es).Err? {
        var i :| 0 <= i < |es| && es[i].0 != "or" && es[i].1.Null?;
        assert WhereFails(value);
      }
    }
  }

  /** Applying a descriptor split in two is applying the first part, then
      the second part to its result. */
  lemma {:induction false} ApplyFromAppend(q: Term, a: seq<(string, Value)>, b: seq<(string, Value)>)
    ensures ApplyFrom(q, a).Err? ==> ApplyFrom(q, a + b) == ApplyFrom(q, a)
    ensures ApplyFrom(q, a).Ok? ==> ApplyFrom(q, a + b) == ApplyFrom(ApplyFrom(q, a).value, b)
    decreases |a|
  {
    if a == [] {
      assert a + b == b;
    } else {
      assert (a + b)[0] == a[0];
      assert (a + b)[1..] == a[1..] + b;
      var step := ApplyEntry(q, a[0].0, a[0].1);
      if step.Ok? {
        ApplyFromAppend(step.value, a[1..], b);
      }
    }
  }

  /** One entry adds the step `StepOf` names, on the same table. */
  lemma EntryStep(q: Term, key: string, value: Value)
    requires ApplyEntry(q, key, value).Ok?
    ensures Root(ApplyEntry(q, key, value).value) == Root(q)
    ensures Spine(ApplyEntry(q, key, value).value) == Spine(q) + StepOf(key, value)
  {
    var t := ApplyEntry(q, key, value).value;
    if key == "where" {
      if value.Null? {
        assert t == q;
      } else {
        assert t.Filter? && t.source == q;
      }
    } else if key == "sort" {
      assert t.OrderBy? && t.source == q;
    } else if !Recognised(key) {
      assert t == q;
    }
  }

  /** `build` appends exactly one step per recognised key, in the
      descriptor's own key order, on top of the handle it started from;
      other keys and `where: null` add nothing. */
  lemma {:induction false} CompiledSteps(q: Term, es: seq<(string, Value)>)
    requires ApplyFrom(q, es).Ok?
    ensures Root(ApplyFrom(q, es).value) == Root(q)
    ensures Spine(ApplyFrom(q, es).value) == Spine(q) + ExpectedSteps(es)
    decreases |es|
  {
    if es != [] {
      var q' := ApplyEntry(q, es[0].0, es[0].1).value;
      EntryStep(q, es[0].0, es[0].1);
      assert ApplyFrom(q, es) == ApplyFrom(q', es[1..]);
      CompiledSteps(q', es[1..]);
      assert ExpectedSteps(es) == StepOf(es[0].0, es[0].1) + ExpectedSteps(es[1..]);
    }
  }

  /** `build` throws exactly when one of the descriptor's entries does. */
  lemma {:induction false} ApplyFromFailsIff(q: Term, es: seq<(string, Value)>)
    ensures ApplyFrom(q, es).Err? <==> exists i :: 0 <= i < |es| && EntryFails(es[i].0, es[i].1)
    decreases |es|
  {
    if es != [] {
      EntryFailsIff(q, es[0].0, es[0].1);
      var step := ApplyEntry(q, es[0].0, es[0].1);
      if step.Ok? {
        ApplyFromFailsIff(step.value, es[1..]);
        if exists i :: 0 <= i < |es| && EntryFails(es[i].0, es[i].1) {
          var i :| 0 <= i < |es| && EntryFails(es[i].0, es[i].1);
          assert i > 0 && es[1..][i - 1] == es[i];
        }
        if exists i :: 0 <= i < |es[1..]| && EntryFails(es[1..][i].0, es[1..][i].1) {
          var i :| 0 <= i < |es[1..]| && EntryFails(es[1..][i].0, es[1..][i].1);
          assert es[i + 1] == es[1..][i];
        }
      } else {
        assert EntryFails(es[0].0, es[0].1);
      }
    }
  }

  /** Compiling a whole descriptor throws exactly when it is null or
      undefined, or one of its entries throws. */
  lemma CompileFailsIff(table: Term, query: Value)
    ensures Compile(table, query).Err? <==>
              query.Null? || query.Undefined?
              || exists i :: 0 <= i < |OwnKeys(query).value| && EntryFails(OwnKeys(query).value[i].0, OwnKeys(query).value[i].1)
  {
    if OwnKeys(query).Ok? {
      ApplyFromFailsIff(table, OwnKeys(query).value);
    }
  }

  /** An entry `build` does not act on, or `where: null`, can be removed
      from anywhere in the descriptor without changing the result. */
  lemma NeutralEntryIgnored(q: Term, a: seq<(string, Value)>, key: string, value: Value, b: seq<(string, Value)>)
    requires !Recognised(key) || (key == "where" && value.Null?)
    ensures ApplyFrom(q, a + [(key, value)] + b) == ApplyFrom(q, a + b)
  {
    ApplyFromAppend(q, a, [(key, value)] + b);
    ApplyFromAppend(q, a, b);
    assert a + [(key, value)] + b == a + ([(key, value)] + b);
    if ApplyFrom(q, a).Ok? {
      var t := ApplyFrom(q, a).value;
      assert ([(key, value)] + b)[1..] == b;
      assert ApplyEntry(t, key, value) == Ok(t);
    }
  }

  /** `skip` and `limit` wrap whatever has been built so far, passing their
      value through unchanged; a later key is applied on top of them. */
  lemma PaginationPassesThrough(q: Term, a: seq<(string, Value)>, key: string, value: Value)
    requires key == "skip" || key == "limit"
    requires ApplyFrom(q, a).Ok?
    ensures var t := ApplyFrom(q, a).value;
            ApplyFrom(q, a + [(key, value)]) == Ok(if key == "skip" then Skip(t, value) else Limit(t, value))
  {
    ApplyFromAppend(q, a, [(key, value)]);
  }

  /** `limit` is not moved after `sort`: `{limit: n, sort: {f: 1}}` puts
      the limit beneath the ordering. */
  lemma LimitNotMovedAfterSort(table: Term, n: int, f: string)
    ensures Compile(table, Obj([("limit", Num(n)), ("sort", Obj([(f, Num(1))]))]))
            == Ok(OrderBy(Limit(table, Num(n)), Asc, Some(f)))
  {
    var es := [("limit", Num(n)), ("sort", Obj([(f, Num(1))]))];
    var limited := Limit(table, Num(n));
    assert ApplyEntry(table, es[0].0, es[0].1) == Ok(limited);
    assert es[1..] == [es[1]];
    assert BuildOrder(limited, Obj([(f, Num(1))])) == Ok(OrderBy(limited, Asc, Some(f)));
    assert ApplyFrom(limited, es[1..]) == ApplyFrom(OrderBy(limited, Asc, Some(f)), []);
  }

  /** The symbolic operator and its word alias, with the condition they select. */
  const Aliases: seq<(string, string, Op)> := [
    ("<", "lessThan", Lt), ("<=", "lessThanOrEqual", Le), (">", "greaterThan", Gt),
    (">=", "greaterThanOrEqual", Ge), ("!", "not", Ne)]

  /** Both spellings of an operator compile to the same condition, carrying
      the operator's value. */
  lemma OperatorAliases(field: string, k: nat, v: Value, rest: seq<(string, Value)>)
    requires k < |Aliases|
    ensures BuildExpression(field, Obj([(Aliases[k].0, v)] + rest)) == Ok(Some(Cond(Aliases[k].2, field, v)))
    ensures BuildExpression(field, Obj([(Aliases[k].1, v)] + rest)) == Ok(Some(Cond(Aliases[k].2, field, v)))
  {
  }

  /** Only the first key of an operator mapping is consulted. */
  lemma FirstKeyOnly(field: string, key: string, v: Value, rest: seq<(string, Value)>, rest': seq<(string, Value)>)
    ensures BuildExpression(field, Obj([(key, v)] + rest)) == BuildExpression(field, Obj([(key, v)] + rest'))
  {
  }

  /** A first key that is not a comparison operator (`contains`, `like`, an
      array's index key "0", ...) yields no condition, and so does an empty
      mapping or array. */
  lemma UnknownOperatorYieldsNothing(field: string, segment: Value)
    requires segment.Obj? || segment.Arr?
    requires OwnKeys(segment).value == [] || OperatorOf(OwnKeys(segment).value[0].0).None?
    ensures BuildExpression(field, segment) == Ok(None)
  {
  }

  /** The Sails modifiers the compiler does not implement select no
      operator, so a condition using one is dropped. */
  lemma UnsupportedModifiersYieldNothing(field: string, key: string, v: Value, rest: seq<(string, Value)>)
    requires key in {"contains", "like", "startsWith", "endsWith"}
    ensures BuildExpression(field, Obj([(key, v)] + rest)) == Ok(None)
  {
  }

  /** A descriptor holding only a `where` clause compiles to that clause's
      `filter` on the table, carrying every one of its conditions. */
  lemma WhereOnly(table: Term, w: Value)
    ensures Compile(table, Obj([("where", w)])) == BuildWhere(table, w)
  {
    var es := [("where", w)];
    assert es[0] == ("where", w) && es[1..] == [];
    var step := ApplyEntry(table, "where", w);
    if step.Ok? {
      assert ApplyFrom(step.value, es[1..]) == Ok(step.value);
    }
  }

  /** `{where: {f: v}}` with a value that is not an object filters the table
      by the one condition `f == v`. */
  lemma WhereEquality(table: Term, f: string, v: Value)
    requires f != "or" && !IsObjectType(v)
    ensures Compile(table, Obj([("where", Obj([(f, v)]))])) == Ok(Filter(table, And([Some(Cond(Eq, f, v))])))
  {
    WhereOnly(table, Obj([(f, v)]));
    var es := [(f, v)];
    var cs := Conditions(es);
    assert !(exists i :: 0 <= i < |es| && es[i].0 != "or" && es[i].1.Null?);
    assert BuildExpression(es[0].0, es[0].1) == Ok(cs.value[0]);
    assert cs.value == [Some(Cond(Eq, f, v))];
  }

  /** An array is an object to `typeof`, and its first key "0" is no
      operator: an array-valued condition is dropped. */
  lemma ArrayExpressionYieldsNothing(field: string, items: seq<Value>)
    ensures BuildExpression(field, Arr(items)) == Ok(None)
  {
    if items != [] {
      assert OwnKeys(Arr(items)).value[0].0 == IndexKey(0) == "0";
    }
  }

  /** Sorting by `{f: v, ...}` orders by the index `f` alone, ascending
      exactly when `v` is the number 1. */
  lemma SortFirstFieldOnly(q: Term, f: string, v: Value, rest: seq<(string, Value)>)
    ensures BuildOrder(q, Obj([(f, v)] + rest)) == Ok(OrderBy(q, if v == Num(1) then Asc else Desc, Some(f)))
  {
  }
}
