/** The RethinkDB query terms the compiler emits, kept as syntax: what
    the driver and the server make of them is outside this model. */
module Reql {
  import opened JsValue

  datatype Dir = Asc | Desc

  /** `row(field).eq/lt/le/gt/ge/ne(operand)` */
  datatype Op = Eq | Lt | Le | Gt | Ge | Ne

  datatype Cond = Cond(op: Op, field: string, operand: Value)

  /** `r.and(...conditions)`. A `None` entry is an `undefined` argument: a
      clause key for which the compiler produced no condition. */
  datatype Pred = And(conds: seq<Option<Cond>>)

  datatype Option<+T> = None | Some(value: T)

  /** A chain of builder calls on a table handle. `OrderBy` carries
      `r.asc(index)` or `r.desc(index)`; `None` as the index stands for
      `undefined`. `Skip` and `Limit` keep the descriptor's value as given. */
  datatype Term =
    | Table(db: string, name: string)
    | Filter(source: Term, pred: Pred)
    | OrderBy(source: Term, dir: Dir, index: Option<string>)
    | Skip(source: Term, count: Value)
    | Limit(source: Term, count: Value)

  datatype StepKind = FilterStep | OrderStep | SkipStep | LimitStep

  /** The table handle at the bottom of a chain. */
  function Root(t: Term): (r: Term)
    ensures r.Table?
  {
    match t
    case Table(_, _) => t
    case Filter(s, _) => Root(s)
    case OrderBy(s, _, _) => Root(s)
    case Skip(s, _) => Root(s)
    case Limit(s, _) => Root(s)
  }

  /** The kinds of the builder calls in a chain, innermost (first applied) first. */
  function Spine(t: Term): (r: seq<StepKind>)
    ensures t.Table? <==> r == []
  {
    match t
    case Table(_, _) => []
    case Filter(s, _) => Spine(s) + [FilterStep]
    case OrderBy(s, _, _) => Spine(s) + [OrderStep]
    case Skip(s, _) => Spine(s) + [SkipStep]
    case Limit(s, _) => Spine(s) + [LimitStep]
  }
}
