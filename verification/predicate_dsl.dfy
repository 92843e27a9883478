/** The operator sugar that builds predicate expressions
    (Sources/ParseConnector/Predicate/ParsePredicateExpression.swift, lines 140-294).

    Plain comparisons (`key == value`, `value < key`, ...) and the logical operators
    (`!`, `&&`, `||`) are the `Compare`, `Not`, `And` and `Or` constructors themselves.
    The functions here are the operators that build something less direct: comparisons
    with `nil`, range and collection membership, and regular-expression matching. Each
    contract states what the built tree compiles to. The range sugar is reproduced as
    written: `key <= lower` for the lower bound and `upper < key` for the upper one,
    which the compiler turns into `$lte lower` and `$lt upper` because swapped operands
    keep their operator. So the lower bound excludes the values it should admit; the
    `...Fixed` functions build it as `key >= lower`, and the `...Admits` lemmas say
    which integer values each version lets through. */
module PredicateDsl {
  import opened Errors
  import opened Bson
  import opened Wrappers
  import opened Predicate

  /** The filter `{$and: [first, second]}`. */
  function AndOfTwo(first: Doc, second: Doc): Doc {
    [("$and", Array([Document(first), Document(second)]))]
  }

  /** `value == nil`: equality with a BSON null literal. */
  function EqualsNil(lhs: PredicateValue): (e: Expr)
    ensures lhs.Key? ==> Compile(e) == Success(Condition(lhs.name, "$eq", Null))
    ensures !lhs.Key? ==> Compile(e) == Failure(InvalidExpression)
  {
    Compare(Equal, lhs, Literal(Null))
  }

  /** `value != nil`. */
  function NotEqualsNil(lhs: PredicateValue): (e: Expr)
    ensures lhs.Key? ==> Compile(e) == Success(Condition(lhs.name, "$ne", Null))
    ensures !lhs.Key? ==> Compile(e) == Failure(InvalidExpression)
  {
    Compare(NotEqual, lhs, Literal(Null))
  }

  /** `nil == value`: the null literal on the left. */
  function NilEquals(rhs: PredicateValue): (e: Expr)
    ensures rhs.Key? ==> Compile(e) == Success(Condition(rhs.name, "$eq", Null))
    ensures !rhs.Key? ==> Compile(e) == Failure(InvalidExpression)
  {
    Compare(Equal, Literal(Null), rhs)
  }

  /** `nil != value`. */
  function NilNotEquals(rhs: PredicateValue): (e: Expr)
    ensures rhs.Key? ==> Compile(e) == Success(Condition(rhs.name, "$ne", Null))
    ensures !rhs.Key? ==> Compile(e) == Failure(InvalidExpression)
  {
    Compare(NotEqual, Literal(Null), rhs)
  }

  /** `key =~ lower..<upper`. */
  function InRange(lhs: PredicateValue, lower: BSON, upper: BSON): (e: Expr)
    ensures lhs.Key? ==>
              Compile(e) == Success(AndOfTwo(Condition(lhs.name, "$lte", lower), Condition(lhs.name, "$lt", upper)))
    ensures !lhs.Key? ==> Compile(e) == Failure(InvalidExpression)
  {
    var low := Compare(LessThanOrEqualTo, lhs, Literal(lower));
    var high := Compare(LessThan, Literal(upper), lhs);
    if lhs.Key? then
      CompileTwo(low, high);
      And(low, high)
    else
      And(low, high)
  }

  /** `key =~ lower...upper`. */
  function InClosedRange(lhs: PredicateValue, lower: BSON, upper: BSON): (e: Expr)
    ensures lhs.Key? ==>
              Compile(e) == Success(AndOfTwo(Condition(lhs.name, "$lte", lower), Condition(lhs.name, "$lte", upper)))
    ensures !lhs.Key? ==> Compile(e) == Failure(InvalidExpression)
  {
    var low := Compare(LessThanOrEqualTo, lhs, Literal(lower));
    var high := Compare(LessThanOrEqualTo, Literal(upper), lhs);
    if lhs.Key? then
      CompileTwo(low, high);
      And(low, high)
    else
      And(low, high)
  }

  /** `key =~ lower...`. */
  function InRangeFrom(lhs: PredicateValue, lower: BSON): (e: Expr)
    ensures lhs.Key? ==> Compile(e) == Success(Condition(lhs.name, "$lte", lower))
    ensures !lhs.Key? ==> Compile(e) == Failure(InvalidExpression)
  {
    Compare(LessThanOrEqualTo, lhs, Literal(lower))
  }

  /** `key =~ ..<upper`. */
  function InRangeUpTo(lhs: PredicateValue, upper: BSON): (e: Expr)
    ensures lhs.Key? ==> Compile(e) == Success(Condition(lhs.name, "$lt", upper))
    ensures !lhs.Key? ==> Compile(e) == Failure(InvalidExpression)
  {
    Compare(LessThan, Literal(upper), lhs)
  }

  /** `key =~ ...upper`. */
  function InRangeThrough(lhs: PredicateValue, upper: BSON): (e: Expr)
    ensures lhs.Key? ==> Compile(e) == Success(Condition(lhs.name, "$lte", upper))
    ensures !lhs.Key? ==> Compile(e) == Failure(InvalidExpression)
  {
    Compare(LessThanOrEqualTo, Literal(upper), lhs)
  }

  /** Whether the filter `f` admits the integer value `x` of field `key`, read with
      MongoDB's comparison operators: `f` is a single bound `{key: {op: n}}`, or a
      two-way `$and` of such bounds. Any other shape admits nothing. */
  predicate Admits(f: Doc, key: string, x: int) {
    if |f| == 1 && f[0].0 == "$and" && f[0].1.Array? && |f[0].1.elems| == 2
       && f[0].1.elems[0].Document? && f[0].1.elems[1].Document? then
      Bound(f[0].1.elems[0].fields, key, x) && Bound(f[0].1.elems[1].fields, key, x)
    else
      Bound(f, key, x)
  }

  /** Whether `f` is the single bound `{key: {op: n}}` and `x` meets it. */
  predicate Bound(f: Doc, key: string, x: int) {
    && |f| == 1 && f[0].0 == key && f[0].1.Document? && |f[0].1.fields| == 1 && f[0].1.fields[0].1.Int?
    && MeetsBound(f[0].1.fields[0].0, f[0].1.fields[0].1.i, x)
  }

  /** Whether `x` meets the comparison `op` against `n`. */
  predicate MeetsBound(op: string, n: int, x: int) {
    match op
    case "$lt" => x < n
    case "$lte" => x <= n
    case "$gt" => x > n
    case "$gte" => x >= n
    case _ => false
  }

  /** As written, `key =~ a..<b` admits exactly the values at most `a` and below `b`,
      not the values of the range. */
  lemma InRangeAdmits(key: string, a: int, b: int, x: int)
    ensures Compile(InRange(Key(key), Int(a), Int(b))).Success?
    ensures Admits(Compile(InRange(Key(key), Int(a), Int(b))).value, key, x) <==> x <= a && x < b
  {
  }

  /** As written, `key =~ a...b` admits exactly the values at most `a` and at most `b`. */
  lemma InClosedRangeAdmits(key: string, a: int, b: int, x: int)
    ensures Compile(InClosedRange(Key(key), Int(a), Int(b))).Success?
    ensures Admits(Compile(InClosedRange(Key(key), Int(a), Int(b))).value, key, x) <==> x <= a && x <= b
  {
  }

  /** As written, `key =~ a...` admits exactly the values at most `a`. */
  lemma InRangeFromAdmits(key: string, a: int, x: int)
    ensures Compile(InRangeFrom(Key(key), Int(a))).Success?
    ensures Admits(Compile(InRangeFrom(Key(key), Int(a))).value, key, x) <==> x <= a
  {
  }

  /** `key =~ ..<b` admits exactly the values of the range. */
  lemma InRangeUpToAdmits(key: string, b: int, x: int)
    ensures Compile(InRangeUpTo(Key(key), Int(b))).Success?
    ensures Admits(Compile(InRangeUpTo(Key(key), Int(b))).value, key, x) <==> x < b
  {
  }

  /** `key =~ ...b` admits exactly the values of the range. */
  lemma InRangeThroughAdmits(key: string, b: int, x: int)
    ensures Compile(InRangeThrough(Key(key), Int(b))).Success?
    ensures Admits(Compile(InRangeThrough(Key(key), Int(b))).value, key, x) <==> x <= b
  {
  }

  /** The value 3 lies in `1..<5`, yet `n =~ 1..<5` does not admit it. */
  lemma InRangeMissesMember()
    ensures Compile(InRange(Key("n"), Int(1), Int(5))).Success?
    ensures !Admits(Compile(InRange(Key("n"), Int(1), Int(5))).value, "n", 3)
  {
    InRangeAdmits("n", 1, 5, 3);
  }

  /** `key =~ a..<b` with the lower bound as `key >= a`. */
  function InRangeFixed(lhs: PredicateValue, lower: BSON, upper: BSON): (e: Expr)
    ensures lhs.Key? ==>
              Compile(e) == Success(AndOfTwo(Condition(lhs.name, "$gte", lower), Condition(lhs.name, "$lt", upper)))
    ensures !lhs.Key? ==> Compile(e) == Failure(InvalidExpression)
  {
    var low := Compare(GreaterThanOrEqualTo, lhs, Literal(lower));
    var high := Compare(LessThan, Literal(upper), lhs);
    if lhs.Key? then
      CompileTwo(low, high);
      And(low, high)
    else
      And(low, high)
  }

  /** `key =~ a...b` with the lower bound as `key >= a`. */
  function InClosedRangeFixed(lhs: PredicateValue, lower: BSON, upper: BSON): (e: Expr)
    ensures lhs.Key? ==>
              Compile(e) == Success(AndOfTwo(Condition(lhs.name, "$gte", lower), Condition(lhs.name, "$lte", upper)))
    ensures !lhs.Key? ==> Compile(e) == Failure(InvalidExpression)
  {
    var low := Compare(GreaterThanOrEqualTo, lhs, Literal(lower));
    var high := Compare(LessThanOrEqualTo, Literal(upper), lhs);
    if lhs.Key? then
      CompileTwo(low, high);
      And(low, high)
    else
      And(low, high)
  }

  /** `key =~ a...` as `key >= a`. */
  function InRangeFromFixed(lhs: PredicateValue, lower: BSON): (e: Expr)
    ensures lhs.Key? ==> Compile(e) == Success(Condition(lhs.name, "$gte", lower))
    ensures !lhs.Key? ==> Compile(e) == Failure(InvalidExpression)
  {
    Compare(GreaterThanOrEqualTo, lhs, Literal(lower))
  }

  /** The corrected `key =~ a..<b` admits exactly the values of the range. */
  lemma InRangeFixedAdmits(key: string, a: int, b: int, x: int)
    ensures Compile(InRangeFixed(Key(key), Int(a), Int(b))).Success?
    ensures Admits(Compile(InRangeFixed(Key(key), Int(a), Int(b))).value, key, x) <==> a <= x < b
  {
  }

  /** The corrected `key =~ a...b` admits exactly the values of the range. */
  lemma InClosedRangeFixedAdmits(key: string, a: int, b: int, x: int)
    ensures Compile(InClosedRangeFixed(Key(key), Int(a), Int(b))).Success?
    ensures Admits(Compile(InClosedRangeFixed(Key(key), Int(a), Int(b))).value, key, x) <==> a <= x <= b
  {
  }

  /** The corrected `key =~ a...` admits exactly the values of the range. */
  lemma InRangeFromFixedAdmits(key: string, a: int, x: int)
    ensures Compile(InRangeFromFixed(Key(key), Int(a))).Success?
    ensures Admits(Compile(InRangeFromFixed(Key(key), Int(a))).value, key, x) <==> a <= x
  {
  }

  /** `lower..<upper ~= key`: the same tree as `key =~ lower..<upper`. */
  function RangeContains(lower: BSON, upper: BSON, rhs: PredicateValue): (e: Expr)
    ensures e == InRange(rhs, lower, upper)
  {
    And(Compare(LessThanOrEqualTo, rhs, Literal(lower)), Compare(LessThan, Literal(upper), rhs))
  }

  /** `lower...upper ~= key`. */
  function ClosedRangeContains(lower: BSON, upper: BSON, rhs: PredicateValue): (e: Expr)
    ensures e == InClosedRange(rhs, lower, upper)
  {
    And(Compare(LessThanOrEqualTo, rhs, Literal(lower)), Compare(LessThanOrEqualTo, Literal(upper), rhs))
  }

  /** `lower... ~= key`. */
  function RangeFromContains(lower: BSON, rhs: PredicateValue): (e: Expr)
    ensures e == InRangeFrom(rhs, lower)
  {
    Compare(LessThanOrEqualTo, rhs, Literal(lower))
  }

  /** `..<upper ~= key`. */
  function RangeUpToContains(upper: BSON, rhs: PredicateValue): (e: Expr)
    ensures e == InRangeUpTo(rhs, upper)
  {
    Compare(LessThan, Literal(upper), rhs)
  }

  /** `...upper ~= key`. */
  function RangeThroughContains(upper: BSON, rhs: PredicateValue): (e: Expr)
    ensures e == InRangeThrough(rhs, upper)
  {
    Compare(LessThanOrEqualTo, Literal(upper), rhs)
  }

  /** `key =~ collection`: membership, compiled to `$in`. */
  function InCollection(lhs: PredicateValue, elements: seq<BSON>): (e: Expr)
    ensures lhs.Key? ==> Compile(e) == Success(Condition(lhs.name, "$in", Array(elements)))
    ensures !lhs.Key? ==> Compile(e) == Failure(InvalidExpression)
  {
    Compare(ContainsIn, lhs, Literal(Array(elements)))
  }

  /** `collection ~= key`: the collection lands on the left of the membership test,
      a shape the compiler rejects whatever the right operand is. */
  function CollectionContains(elements: seq<BSON>, rhs: PredicateValue): (e: Expr)
    ensures Compile(e) == Failure(InvalidExpression)
  {
    Compare(ContainsIn, Literal(Array(elements)), rhs)
  }

  /** `key =~ regex`. */
  function MatchesRegex(lhs: PredicateValue, re: Regex): (e: Expr)
    ensures lhs.Key? ==> Compile(e) == Success(Condition(lhs.name, "$regex", RegexToBson(re)))
    ensures !lhs.Key? ==> Compile(e) == Failure(InvalidExpression)
  {
    Matching(lhs, re)
  }

  /** `regex ~= key`: the same match with the operands written the other way round. */
  function RegexMatches(re: Regex, rhs: PredicateValue): (e: Expr)
    ensures e == MatchesRegex(rhs, re)
  {
    Matching(rhs, re)
  }
}
