/** The compiler from a Sails criteria descriptor (`{where, sort, skip,
    limit}`) to a chain of RethinkDB builder calls, as lib/query.js does it. */
module QueryCompiler {
  import opened JsValue
  import opened Reql

  /** The operator a mapping's first key selects, with its word alias;
      any other key selects nothing. */
  function OperatorOf(key: string): (r: Option<Op>)
    ensures r.Some? <==> key in {"<", "lessThan", "<=", "lessThanOrEqual", ">", "greaterThan",
                                 ">=", "greaterThanOrEqual", "!", "not"}
    ensures r.Some? ==> r.value != Eq
  {
    match key
    case "<" | "lessThan" => Some(Lt)
    case "<=" | "lessThanOrEqual" => Some(Le)
    case ">" | "greaterThan" => Some(Gt)
    case ">=" | "greaterThanOrEqual" => Some(Ge)
    case "!" | "not" => Some(Ne)
    case _ => None
  }

  /** One field condition. A value whose `typeof` is not "object" is an
      equality test; otherwise only the first key of the mapping is read, and
      a key that is not a comparison operator yields no condition. A `null`
      value makes `Object.keys` throw. */
  function BuildExpression(field: string, segment: Value): (r: Result<Option<Cond>>)
    ensures r.Err? <==> segment.Null?
    ensures !IsObjectType(segment) ==> r == Ok(Some(Cond(Eq, field, segment)))
    ensures r.Ok? && r.value.Some? ==> r.value.value.field == field
    ensures IsObjectType(segment) && r.Ok? && r.value.Some? ==>
              var es := OwnKeys(segment).value;
              es != [] && OperatorOf(es[0].0) == Some(r.value.value.op) && r.value.value.operand == es[0].1
    ensures IsObjectType(segment) && r.Ok? && r.value.None? ==>
              var es := OwnKeys(segment).value;
              es == [] || OperatorOf(es[0].0).None?
  {
    if IsObjectType(segment) then
      match OwnKeys(segment)
      case Err(e) => Err(e)
      case Ok(es) =>
        if es == [] then Ok(None)
        else match OperatorOf(es[0].0)
          case Some(op) => Ok(Some(Cond(op, field, es[0].1)))
          case None => Ok(None)
    else
      Ok(Some(Cond(Eq, field, segment)))
  }

  /** The conditions of a `where` clause, one per key in key order; an `or`
      key yields no condition and its value is never looked at. */
  function Conditions(es: seq<(string, Value)>): (r: Result<seq<Option<Cond>>>)
    ensures r.Err? <==> exists i :: 0 <= i < |es| && es[i].0 != "or" && es[i].1.Null?
    ensures r.Ok? ==> |r.value| == |es|
    ensures r.Ok? ==> forall i :: 0 <= i < |es| && es[i].0 == "or" ==> r.value[i] == None
    ensures r.Ok? ==> forall i :: 0 <= i < |es| && es[i].0 != "or" ==>
              BuildExpression(es[i].0, es[i].1) == Ok(r.value[i])
  {
    if es == [] then Ok([])
    else
      var head := if es[0].0 == "or" then Ok(None) else BuildExpression(es[0].0, es[0].1);
      match head
      case Err(e) => Err(e)
      case Ok(c) =>
        match Conditions(es[1..])
        case Err(e) => Err(e)
        case Ok(cs) => Ok([c] + cs)
  }

  /** `where: null` leaves the query as it is; any other value becomes one
      `filter` whose predicate is `r.and` over the clause's conditions. */
  function BuildWhere(q: Term, segment: Value): (r: Result<Term>)
    ensures segment.Null? ==> r == Ok(q)
    ensures r.Err? <==> segment.Undefined? || (!segment.Null? && Conditions(OwnKeys(segment).value).Err?)
    ensures !segment.Null? && r.Ok? ==>
              r.value == Filter(q, And(Conditions(OwnKeys(segment).value).value))
              && |r.value.pred.conds| == |OwnKeys(segment).value|
  {
    if segment.Null? then Ok(q)
    else
      match OwnKeys(segment)
      case Err(e) => Err(e)
      case Ok(es) =>
        match Conditions(es)
        case Err(e) => Err(e)
        case Ok(cs) => Ok(Filter(q, And(cs)))
  }

  /** Sorting reads only the first field of the mapping: ascending when its
      value is exactly the number 1, descending otherwise, always by index.
      With no field at all the index is `undefined` and the direction
      descending. */
  function BuildOrder(q: Term, value: Value): (r: Result<Term>)
    ensures r.Err? <==> value.Null? || value.Undefined?
    ensures r.Ok? ==> r.value.OrderBy? && r.value.source == q
    ensures r.Ok? ==> (r.value.index.None? <==> OwnKeys(value).value == [])
    ensures r.Ok? && r.value.index.Some? ==> r.value.index.value == OwnKeys(value).value[0].0
    ensures r.Ok? ==> (r.value.dir == Asc <==> OwnKeys(value).value != [] && OwnKeys(value).value[0].1 == Num(1))
  {
    match OwnKeys(value)
    case Err(e) => Err(e)
    case Ok(es) =>
      if es == [] then Ok(OrderBy(q, Desc, None))
      else Ok(OrderBy(q, if es[0].1 == Num(1) then Asc else Desc, Some(es[0].0)))
  }

  /** The descriptor keys `build` acts on. */
  predicate Recognised(key: string) {
    key == "where" || key == "sort" || key == "skip" || key == "limit"
  }

  /** One iteration of `build`'s loop: the step a descriptor key appends. */
  function ApplyEntry(q: Term, key: string, value: Value): (r: Result<Term>)
    ensures !Recognised(key) ==> r == Ok(q)
    ensures key == "where" ==> r == BuildWhere(q, value)
    ensures key == "sort" ==> r == BuildOrder(q, value)
    ensures key == "skip" ==> r == Ok(Skip(q, value))
    ensures key == "limit" ==> r == Ok(Limit(q, value))
  {
    if key == "where" then BuildWhere(q, value)
    else if key == "sort" then BuildOrder(q, value)
    else if key == "skip" then Ok(Skip(q, value))
    else if key == "limit" then Ok(Limit(q, value))
    else Ok(q)
  }

  /** The steps of a whole descriptor applied in key order, stopping at the
      first one that throws. */
  function ApplyFrom(q: Term, es: seq<(string, Value)>): Result<Term>
    decreases |es|
  {
    if es == [] then Ok(q)
    else
      match ApplyEntry(q, es[0].0, es[0].1)
      case Err(e) => Err(e)
      case Ok(q') => ApplyFrom(q', es[1..])
  }

  /** What `Query.build(table, query)` returns or throws. */
  function Compile(table: Term, query: Value): (r: Result<Term>)
    ensures OwnKeys(query) == Ok([]) ==> r == Ok(table)
    ensures query.Null? || query.Undefined? ==> r.Err?
  {
    match OwnKeys(query)
    case Err(e) => Err(e)
    case Ok(es) => ApplyFrom(table, es)
  }

  /** The compiler object: it keeps the table handle it was made with. */
  class Query {
    const table: Term

    constructor(table: Term)
      ensures this.table == table
    {
      this.table := table;
    }

    /** `Query.build(table, query)`: a fresh compiler on `table`, then `build`. */
    static method BuildOn(table: Term, query: Value) returns (r: Result<Term>)
      ensures r == Compile(table, query)
    {
      var compiler := new Query(table);
      r := compiler.Build(query);
    }

    /** Walks the descriptor's keys in order, reassigning the query under
        construction once per key. */
    method Build(query: Value) returns (r: Result<Term>)
      ensures r == Compile(table, query)
    {
      var keys := OwnKeys(query);
      if keys.Err? {
        return Err(keys.error);
      }
      var es := keys.value;
      var q := table;
      var i := 0;
      while i < |es|
        invariant 0 <= i <= |es|
        invariant ApplyFrom(q, es[i..]) == Compile(table, query)
      {
        assert es[i..][1..] == es[i + 1..];
        var step := ApplyEntry(q, es[i].0, es[i].1);
        if step.Err? {
          return step;
        }
        q := step.value;
        i := i + 1;
      }
      return Ok(q);
    }
  }
}
