/** The key leaves offered to filter closures
    (Sources/ParseConnector/Predicate/ParsePredicateBuilder.swift). */
module PredicateBuilder {
  import opened Errors
  import opened Bson
  import opened Wrappers
  import opened Predicate

  /** `builder[key]`: the key leaf, whatever text it holds (including system and
      operator-like names). */
  function Subscript(key: string): (v: PredicateValue)
    ensures v.Key? && v.name == key
    ensures forall value :: Compile(Compare(Equal, v, Literal(value))) == Success(Condition(key, "$eq", value))
  {
    Key(key)
  }

  /** `builder.id`: the identifier field `_id`. */
  function Id(): (v: PredicateValue)
    ensures v == Subscript("_id")
    ensures forall h :: Compile(Compare(Equal, v, Literal(ObjectId(h)))) == Success(Condition("_id", "$eq", ObjectId(h)))
  {
    Key("_id")
  }

  /** `builder.createdAt`: the creation timestamp field `_created_at`. */
  function CreatedAt(): (v: PredicateValue)
    ensures v == Subscript("_created_at")
    ensures forall t :: Compile(Compare(GreaterThan, v, Literal(Date(t)))) == Success(Condition("_created_at", "$gt", Date(t)))
  {
    Key("_created_at")
  }

  /** `builder.updatedAt`: the update timestamp field `_updated_at`. */
  function UpdatedAt(): (v: PredicateValue)
    ensures v == Subscript("_updated_at")
    ensures forall t :: Compile(Compare(LessThan, v, Literal(Date(t)))) == Success(Condition("_updated_at", "$lt", Date(t)))
  {
    Key("_updated_at")
  }
}
