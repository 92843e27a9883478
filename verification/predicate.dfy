/** Predicate expressions and their compilation to filter documents
    (Sources/ParseConnector/Predicate/ParsePredicateExpression.swift).

    An expression is an immutable tree whose comparison leaves pair a field key, a
    literal value or an entity. `Compile` lowers it to a filter document literally as
    the source does: swapping the operands of a comparison keeps the operator (it is
    not mirrored), chains of the same logical operator are flattened into one list, and
    every shape the source does not match is rejected. */
module Predicate {
  import opened Wrappers
  import opened Errors
  import opened Bson
  import Assoc
  import ParseObjects

  /** A regular expression, opaque to the model. */
  datatype Regex = Regex(pattern: string, options: string)

  /** `ParsePredicateValue`: a comparison operand. */
  datatype PredicateValue =
    | Key(name: string)
    | Literal(value: BSON)
    | Object(obj: ParseObjects.ParseObject)

  /** The binary comparisons of `ParsePredicateExpression`. */
  datatype Comparison =
    | Equal
    | NotEqual
    | LessThan
    | GreaterThan
    | LessThanOrEqualTo
    | GreaterThanOrEqualTo
    | ContainsIn
    | NotContainsIn

  /** `ParsePredicateExpression`. */
  datatype Expr =
    | Not(operand: Expr)
    | Compare(op: Comparison, lhs: PredicateValue, rhs: PredicateValue)
    | Matching(subject: PredicateValue, regex: Regex)
    | And(left: Expr, right: Expr)
    | Or(left: Expr, right: Expr)

  /** The query operator each comparison compiles to. */
  function OperatorName(op: Comparison): string {
    match op
    case Equal => "$eq"
    case NotEqual => "$ne"
    case LessThan => "$lt"
    case GreaterThan => "$gt"
    case LessThanOrEqualTo => "$lte"
    case GreaterThanOrEqualTo => "$gte"
    case ContainsIn => "$in"
    case NotContainsIn => "$nin"
  }

  /** `regex.toBSON()`. */
  function RegexToBson(re: Regex): BSON {
    RegularExpression(re.pattern, re.options)
  }

  /** The filter `{key: {operator: value}}`. */
  function Condition(key: string, operator: string, value: BSON): Doc {
    [(key, Document([(operator, value)]))]
  }

  // Termination measures: a logical node outweighs the flattened list of its operands.

  function Size(e: Expr): nat {
    match e
    case Not(x) => 1 + Size(x)
    case And(l, r) => 2 + Size(l) + Size(r)
    case Or(l, r) => 2 + Size(l) + Size(r)
    case _ => 1
  }

  function SizeSum(es: seq<Expr>): nat {
    if |es| == 0 then 0 else Size(es[0]) + 1 + SizeSum(es[1..])
  }

  lemma {:induction false} SizeSumAppend(a: seq<Expr>, b: seq<Expr>)
    ensures SizeSum(a + b) == SizeSum(a) + SizeSum(b)
  {
    if |a| == 0 {
      assert a + b == b;
    } else {
      assert (a + b)[1..] == a[1..] + b;
      SizeSumAppend(a[1..], b);
    }
  }

  /** `_andList`: the operands of a chain of `and` nodes, left to right, or `None` for
      any other node. Flattening stops at the first node that is not an `and`. */
  function AndList(e: Expr): (r: Option<seq<Expr>>)
    ensures r.Some? <==> e.And?
    ensures r.Some? ==> SizeSum(r.value) <= Size(e)
    ensures r.Some? ==> forall i :: 0 <= i < |r.value| ==> !r.value[i].And?
  {
    match e
    case And(lhs, rhs) =>
      var l := AndList(lhs).GetOr([lhs]);
      var r := AndList(rhs).GetOr([rhs]);
      SizeSumAppend(l, r);
      Some(l + r)
    case _ => None
  }

  /** `e._andList ?? [e]`. */
  function AndOperands(e: Expr): (r: seq<Expr>)
    ensures SizeSum(r) <= Size(e) + 1
    ensures forall i :: 0 <= i < |r| ==> !r[i].And?
    ensures !e.And? ==> r == [e]
  {
    AndList(e).GetOr([e])
  }

  /** `_orList`: the same flattening for `or` chains. */
  function OrList(e: Expr): (r: Option<seq<Expr>>)
    ensures r.Some? <==> e.Or?
    ensures r.Some? ==> SizeSum(r.value) <= Size(e)
    ensures r.Some? ==> forall i :: 0 <= i < |r.value| ==> !r.value[i].Or?
  {
    match e
    case Or(lhs, rhs) =>
      var l := OrList(lhs).GetOr([lhs]);
      var r := OrList(rhs).GetOr([rhs]);
      SizeSumAppend(l, r);
      Some(l + r)
    case _ => None
  }

  /** `e._orList ?? [e]`. */
  function OrOperands(e: Expr): (r: seq<Expr>)
    ensures SizeSum(r) <= Size(e) + 1
    ensures forall i :: 0 <= i < |r| ==> !r[i].Or?
    ensures !e.Or? ==> r == [e]
  {
    OrList(e).GetOr([e])
  }

  /** A key and a literal, in either order. */
  function KeyAndLiteral(lhs: PredicateValue, rhs: PredicateValue): Option<(string, BSON)> {
    if lhs.Key? && rhs.Literal? then Some((lhs.name, rhs.value))
    else if lhs.Literal? && rhs.Key? then Some((rhs.name, lhs.value))
    else None
  }

  /** A key and an entity, in either order. */
  function KeyAndObject(lhs: PredicateValue, rhs: PredicateValue): Option<(string, ParseObjects.ParseObject)> {
    if lhs.Key? && rhs.Object? then Some((lhs.name, rhs.obj))
    else if lhs.Object? && rhs.Key? then Some((rhs.name, lhs.obj))
    else None
  }

  /** The comparison cases of `toBSONDocument()`. */
  function CompileComparison(op: Comparison, lhs: PredicateValue, rhs: PredicateValue): (r: Result<Doc, ParseError>)
    ensures r.Success? ==> |r.value| == 1
    ensures r.Failure? ==> r.error == InvalidExpression || r.error == NullObjectId
  {
    if op.ContainsIn? || op.NotContainsIn? then
      if lhs.Key? && rhs.Literal? then Success(Condition(lhs.name, OperatorName(op), rhs.value))
      else Failure(InvalidExpression)
    else
      match KeyAndLiteral(lhs, rhs)
      case Some((key, value)) => Success(Condition(key, OperatorName(op), value))
      case None =>
        if op.Equal? || op.NotEqual? then
          match KeyAndObject(lhs, rhs)
          case Some((key, obj)) =>
            (match ParseObjects.Id(obj)
             case None => Failure(NullObjectId)
             case Some(id) => Success(Condition(key, OperatorName(op), Str(obj.cls + "$" + id))))
          case None => Failure(InvalidExpression)
        else Failure(InvalidExpression)
  }

  /** `toBSONDocument()`. Every filter it produces has exactly one top-level key, and
      the only errors are the two the source throws. */
  function Compile(e: Expr): (r: Result<Doc, ParseError>)
    ensures r.Success? ==> |r.value| == 1
    ensures r.Failure? ==> r.error == InvalidExpression || r.error == NullObjectId
    decreases Size(e), 1
  {
    match e
    case Not(x) =>
      var d :- Compile(x);
      Success([("$not", Document(d))])
    case Compare(op, lhs, rhs) => CompileComparison(op, lhs, rhs)
    case Matching(subject, re) =>
      if subject.Key? then Success(Condition(subject.name, "$regex", RegexToBson(re)))
      else Failure(InvalidExpression)
    case And(lhs, rhs) =>
      var list := AndOperands(lhs) + AndOperands(rhs);
      SizeSumAppend(AndOperands(lhs), AndOperands(rhs));
      var docs :- CompileList(list);
      Success([("$and", Array(docs))])
    case Or(lhs, rhs) =>
      var list := OrOperands(lhs) + OrOperands(rhs);
      SizeSumAppend(OrOperands(lhs), OrOperands(rhs));
      var docs :- CompileList(list);
      Success([("$or", Array(docs))])
  }

  /** `list.map { try $0.toBSONDocument() }`, wrapped as BSON documents; the first
      operand that fails decides the error. */
  function CompileList(es: seq<Expr>): (r: Result<seq<BSON>, ParseError>)
    ensures r.Success? ==> |r.value| == |es|
    ensures r.Failure? ==> r.error == InvalidExpression || r.error == NullObjectId
    decreases SizeSum(es), 0
  {
    if |es| == 0 then Success([])
    else
      var d :- Compile(es[0]);
      var rest :- CompileList(es[1..]);
      Success([Document(d)] + rest)
  }

  /** Compiling a list succeeds exactly when every element compiles; its result holds
      the elements' filters in order, and a failure is the first element's failure. */
  lemma {:induction false} CompileListSpec(es: seq<Expr>)
    ensures CompileList(es).Success? <==> forall i :: 0 <= i < |es| ==> Compile(es[i]).Success?
    ensures CompileList(es).Success? ==>
              forall i :: 0 <= i < |es| ==> CompileList(es).value[i] == Document(Compile(es[i]).value)
    ensures CompileList(es).Failure? ==>
              exists i :: 0 <= i < |es| && Compile(es[i]).Failure? &&
                          CompileList(es).error == Compile(es[i]).error &&
                          forall j :: 0 <= j < i ==> Compile(es[j]).Success?
    decreases |es|
  {
    if |es| > 0 {
      CompileListSpec(es[1..]);
      assert forall i :: 1 <= i < |es| ==> es[i] == es[1..][i - 1];
      if Compile(es[0]).Success? && CompileList(es[1..]).Failure? {
        var i :| 0 <= i < |es[1..]| && Compile(es[1..][i]).Failure? &&
                 CompileList(es[1..]).error == Compile(es[1..][i]).error &&
                 forall j :: 0 <= j < i ==> Compile(es[1..][j]).Success?;
        assert Compile(es[i + 1]).Failure?;
        assert forall j :: 1 <= j < i + 1 ==> Compile(es[j]).Success? by {
          forall j | 1 <= j < i + 1
            ensures Compile(es[j]).Success?
          {
            assert es[j] == es[1..][j - 1];
          }
        }
      }
    }
  }

  /** A comparison between a key and a literal compiles to `{key: {operator: value}}`
      whichever side holds the key: the operator is never mirrored. Collection
      membership accepts only the key on the left. */
  lemma SwappedOperandsKeepOperator(op: Comparison, key: string, value: BSON)
    ensures Compile(Compare(op, Key(key), Literal(value))) == Success(Condition(key, OperatorName(op), value))
    ensures !(op.ContainsIn? || op.NotContainsIn?) ==>
              Compile(Compare(op, Literal(value), Key(key))) == Success(Condition(key, OperatorName(op), value))
    ensures op.ContainsIn? || op.NotContainsIn? ==>
              Compile(Compare(op, Literal(value), Key(key))) == Failure(InvalidExpression)
  {
  }

  /** Equality and inequality against an entity compare the key with the entity's
      `Class$id` pointer text, and fail when the entity has no id. */
  lemma EntityOperand(op: Comparison, key: string, obj: ParseObjects.ParseObject)
    requires op.Equal? || op.NotEqual?
    ensures Compile(Compare(op, Key(key), Object(obj))) == Compile(Compare(op, Object(obj), Key(key)))
    ensures ParseObjects.ToPointer(obj).None? ==>
              Compile(Compare(op, Key(key), Object(obj))) == Failure(NullObjectId)
    ensures ParseObjects.ToPointer(obj).Some? ==>
              Compile(Compare(op, Key(key), Object(obj))) ==
              Success(Condition(key, OperatorName(op), Str(ParseObjects.ToPointer(obj).value)))
  {
  }

  /** The operand shapes the compiler accepts for a comparison. */
  predicate WellShaped(op: Comparison, lhs: PredicateValue, rhs: PredicateValue) {
    || (lhs.Key? && rhs.Literal?)
    || (lhs.Literal? && rhs.Key? && !(op.ContainsIn? || op.NotContainsIn?))
    || ((op.Equal? || op.NotEqual?) && ((lhs.Key? && rhs.Object?) || (lhs.Object? && rhs.Key?)))
  }

  /** A comparison is rejected as invalid exactly when its operands are not well shaped
      (two keys, two literals, an entity under any operator but equality, a literal
      left of a membership test, ...); it fails with `NullObjectId` exactly when it is
      well shaped around an entity that has no id. */
  lemma {:induction false} ComparisonShapes(op: Comparison, lhs: PredicateValue, rhs: PredicateValue)
    ensures Compile(Compare(op, lhs, rhs)) == Failure(InvalidExpression) <==> !WellShaped(op, lhs, rhs)
    ensures Compile(Compare(op, lhs, rhs)) == Failure(NullObjectId) <==>
              WellShaped(op, lhs, rhs) &&
              ((rhs.Object? && ParseObjects.Id(rhs.obj).None?) || (lhs.Object? && ParseObjects.Id(lhs.obj).None?))
  {
    if WellShaped(op, lhs, rhs) {
      if rhs.Object? {
        assert lhs.Key?;
      } else if lhs.Object? {
        assert rhs.Key?;
      }
    }
  }

  /** A regular-expression match compiles only on a key. */
  lemma MatchingShapes(subject: PredicateValue, re: Regex)
    ensures subject.Key? ==> Compile(Matching(subject, re)) == Success(Condition(subject.name, "$regex", RegexToBson(re)))
    ensures !subject.Key? ==> Compile(Matching(subject, re)) == Failure(InvalidExpression)
  {
  }

  /** `not` wraps the compiled operand under `$not` and passes its failure through. */
  lemma NotCompiles(x: Expr)
    ensures Compile(x).Failure? ==> Compile(Not(x)) == Failure(Compile(x).error)
    ensures Compile(x).Success? ==> Compile(Not(x)) == Success([("$not", Document(Compile(x).value))])
  {
  }

  /** An `and` node compiles exactly when each operand of its flattened chain does,
      into one `$and` list of their filters in order; the first failing operand
      decides the error. */
  lemma AndCompiles(lhs: Expr, rhs: Expr)
    ensures var list := AndOperands(lhs) + AndOperands(rhs);
            && (Compile(And(lhs, rhs)).Success? <==> forall i :: 0 <= i < |list| ==> Compile(list[i]).Success?)
            && (Compile(And(lhs, rhs)).Success? ==>
                  && Assoc.Keys(Compile(And(lhs, rhs)).value) == ["$and"]
                  && var items := Compile(And(lhs, rhs)).value[0].1;
                  && items.Array? && |items.elems| == |list|
                  && forall i :: 0 <= i < |list| ==> items.elems[i] == Document(Compile(list[i]).value))
            && (Compile(And(lhs, rhs)).Failure? ==>
                  exists i :: 0 <= i < |list| && Compile(list[i]).Failure? && Compile(And(lhs, rhs)) == Compile(list[i]) &&
                              forall j :: 0 <= j < i ==> Compile(list[j]).Success?)
  {
    CompileListSpec(AndOperands(lhs) + AndOperands(rhs));
  }

  /** The `or` counterpart of `AndCompiles`. */
  lemma OrCompiles(lhs: Expr, rhs: Expr)
    ensures var list := OrOperands(lhs) + OrOperands(rhs);
            && (Compile(Or(lhs, rhs)).Success? <==> forall i :: 0 <= i < |list| ==> Compile(list[i]).Success?)
            && (Compile(Or(lhs, rhs)).Success? ==>
                  && Assoc.Keys(Compile(Or(lhs, rhs)).value) == ["$or"]
                  && var items := Compile(Or(lhs, rhs)).value[0].1;
                  && items.Array? && |items.elems| == |list|
                  && forall i :: 0 <= i < |list| ==> items.elems[i] == Document(Compile(list[i]).value))
            && (Compile(Or(lhs, rhs)).Failure? ==>
                  exists i :: 0 <= i < |list| && Compile(list[i]).Failure? && Compile(Or(lhs, rhs)) == Compile(list[i]) &&
                              forall j :: 0 <= j < i ==> Compile(list[j]).Success?)
  {
    CompileListSpec(OrOperands(lhs) + OrOperands(rhs));
  }

  lemma AppendAssociative(x: seq<Expr>, y: seq<Expr>, z: seq<Expr>)
    ensures (x + y) + z == x + (y + z)
  {
  }

  /** The operands of an `and` are those of its two sides, in order. */
  lemma AndOperandsOfAnd(l: Expr, r: Expr)
    ensures AndOperands(And(l, r)) == AndOperands(l) + AndOperands(r)
  {
  }

  /** The operands of an `or` are those of its two sides, in order. */
  lemma OrOperandsOfOr(l: Expr, r: Expr)
    ensures OrOperands(Or(l, r)) == OrOperands(l) + OrOperands(r)
  {
  }

  /** However an `and` chain is parenthesised, it compiles to the same filter. */
  lemma AndAssociative(a: Expr, b: Expr, c: Expr)
    ensures Compile(And(And(a, b), c)) == Compile(And(a, And(b, c)))
  {
    AndOperandsOfAnd(a, b);
    AndOperandsOfAnd(b, c);
    AppendAssociative(AndOperands(a), AndOperands(b), AndOperands(c));
  }

  /** However an `or` chain is parenthesised, it compiles to the same filter. */
  lemma OrAssociative(a: Expr, b: Expr, c: Expr)
    ensures Compile(Or(Or(a, b), c)) == Compile(Or(a, Or(b, c)))
  {
    OrOperandsOfOr(a, b);
    OrOperandsOfOr(b, c);
    AppendAssociative(OrOperands(a), OrOperands(b), OrOperands(c));
  }

  lemma CompileTwo(a: Expr, b: Expr)
    requires Compile(a).Success? && Compile(b).Success?
    ensures CompileList([a, b]) == Success([Document(Compile(a).value), Document(Compile(b).value)])
  {
    assert [b][1..] == [];
    assert CompileList([b][1..]) == Success([]);
    assert [Document(Compile(b).value)] + [] == [Document(Compile(b).value)];
    assert CompileList([b]) == Success([Document(Compile(b).value)]);
    assert [a, b][1..] == [b];
    assert [Document(Compile(a).value)] + [Document(Compile(b).value)] ==
           [Document(Compile(a).value), Document(Compile(b).value)];
  }

  lemma CompileThree(a: Expr, b: Expr, c: Expr)
    requires Compile(a).Success? && Compile(b).Success? && Compile(c).Success?
    ensures CompileList([a, b, c]) ==
            Success([Document(Compile(a).value), Document(Compile(b).value), Document(Compile(c).value)])
  {
    assert [a, b, c][1..] == [b, c];
    CompileTwo(b, c);
    assert [Document(Compile(a).value)] + [Document(Compile(b).value), Document(Compile(c).value)] ==
           [Document(Compile(a).value), Document(Compile(b).value), Document(Compile(c).value)];
  }

  /** Three conjuncts that are not themselves `and` nodes compile to one flat `$and`
      list, in order, under either grouping. */
  lemma AndOfThree(a: Expr, b: Expr, c: Expr)
    requires !a.And? && !b.And? && !c.And?
    requires Compile(a).Success? && Compile(b).Success? && Compile(c).Success?
    ensures Compile(And(And(a, b), c)) ==
            Success([("$and", Array([Document(Compile(a).value), Document(Compile(b).value), Document(Compile(c).value)]))])
    ensures Compile(And(a, And(b, c))) == Compile(And(And(a, b), c))
  {
    AndAssociative(a, b, c);
    assert AndOperands(And(a, b)) + AndOperands(c) == [a, b, c];
    CompileThree(a, b, c);
  }

  /** Three disjuncts that are not themselves `or` nodes compile to one flat `$or`
      list, in order, under either grouping. */
  lemma OrOfThree(a: Expr, b: Expr, c: Expr)
    requires !a.Or? && !b.Or? && !c.Or?
    requires Compile(a).Success? && Compile(b).Success? && Compile(c).Success?
    ensures Compile(Or(Or(a, b), c)) ==
            Success([("$or", Array([Document(Compile(a).value), Document(Compile(b).value), Document(Compile(c).value)]))])
    ensures Compile(Or(a, Or(b, c))) == Compile(Or(Or(a, b), c))
  {
    OrAssociative(a, b, c);
    assert OrOperands(Or(a, b)) + OrOperands(c) == [a, b, c];
    CompileThree(a, b, c);
  }

  /** Flattening stops at a node of the other operator: an `or` under an `and` stays a
      single element of the `$and` list, and vice versa. */
  lemma MixedOperatorsNest(x: Expr, y: Expr, z: Expr)
    requires !z.And?
    requires Compile(Or(x, y)).Success? && Compile(z).Success?
    ensures AndOperands(Or(x, y)) == [Or(x, y)]
    ensures OrOperands(And(x, y)) == [And(x, y)]
    ensures Compile(And(Or(x, y), z)) ==
            Success([("$and", Array([Document(Compile(Or(x, y)).value), Document(Compile(z).value)]))])
  {
    assert AndOperands(Or(x, y)) + AndOperands(z) == [Or(x, y), z];
    CompileTwo(Or(x, y), z);
  }
}
