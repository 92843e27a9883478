/** The pointer comparisons declared next to `ParseObject`
    (Sources/ParseConnector/ParseObject.swift, lines 146-160).

    In the source these build the store driver's own predicate type, which is not part
    of this model; they are modelled with `Predicate.Expr` standing in for it. Unlike an
    `Object` operand, they compare the `_p_`-prefixed field with the entity's pointer
    text, and an entity without an id yields a comparison with null rather than an
    error. */
module PointerPredicates {
  import opened Errors
  import opened Bson
  import opened Wrappers
  import opened Predicate
  import ParseObjects

  /** The field under which a pointer named `key` is stored. */
  function PointerField(key: string): string {
    "_p_" + key
  }

  /** `object.toPointer()` as a literal: the pointer text, or null without an id. */
  function PointerLiteral(obj: ParseObjects.ParseObject): (v: BSON)
    ensures ParseObjects.ToPointer(obj).Some? ==> v == Str(ParseObjects.ToPointer(obj).value)
    ensures ParseObjects.ToPointer(obj).None? ==> v == Null
  {
    match ParseObjects.ToPointer(obj)
    case Some(p) => Str(p)
    case None => Null
  }

  /** `key == object`. */
  function KeyEqualsObject(key: string, obj: ParseObjects.ParseObject): (e: Expr)
    ensures Compile(e) == Success(Condition("_p_" + key, "$eq", PointerLiteral(obj)))
  {
    Compare(Equal, Key(PointerField(key)), Literal(PointerLiteral(obj)))
  }

  /** `key != object`. */
  function KeyNotEqualsObject(key: string, obj: ParseObjects.ParseObject): (e: Expr)
    ensures Compile(e) == Success(Condition("_p_" + key, "$ne", PointerLiteral(obj)))
  {
    Compare(NotEqual, Key(PointerField(key)), Literal(PointerLiteral(obj)))
  }

  /** `object == key`. */
  function ObjectEqualsKey(obj: ParseObjects.ParseObject, key: string): (e: Expr)
    ensures Compile(e) == Compile(KeyEqualsObject(key, obj))
  {
    Compare(Equal, Literal(PointerLiteral(obj)), Key(PointerField(key)))
  }

  /** `object != key`. */
  function ObjectNotEqualsKey(obj: ParseObjects.ParseObject, key: string): (e: Expr)
    ensures Compile(e) == Compile(KeyNotEqualsObject(key, obj))
  {
    Compare(NotEqual, Literal(PointerLiteral(obj)), Key(PointerField(key)))
  }

  /** The two ways of comparing a field with an entity differ: the pointer operators
      prefix the field and never fail, while an `Object` operand keeps the field name
      and fails without an id. With an id they compare the same pointer text. */
  lemma PointerFormsCompared(key: string, obj: ParseObjects.ParseObject)
    ensures ParseObjects.Id(obj).None? ==>
              Compile(KeyEqualsObject(key, obj)).Success? &&
              Compile(Compare(Equal, Key(key), Object(obj))) == Failure(NullObjectId)
    ensures ParseObjects.Id(obj).Some? ==>
              Compile(KeyEqualsObject(key, obj)).value[0].1 == Compile(Compare(Equal, Key(key), Object(obj))).value[0].1
  {
    EntityOperand(Equal, key, obj);
  }
}
