/** Entities (Sources/ParseConnector/ParseObject.swift).

    A `ParseObject` pairs the last known stored document (`data`) with the fields written
    since (`updated`). Reads see `updated` first; writes only ever touch `updated`. Store
    calls are modelled as the request they would issue, and a successful save as the
    object it returns. */
module ParseObjects {
  import opened Wrappers
  import opened Errors
  import opened Bson
  import Assoc
  import Strings

  datatype ParseObject = ParseObject(cls: string, data: Doc, updated: Doc)

  /** What the Swift value guarantees: both documents have unique keys, and `_id`
      cannot be written, so it is never among the pending fields. */
  predicate Valid(o: ParseObject) {
    Assoc.Unique(o.data) && Assoc.Unique(o.updated) && "_id" !in Assoc.Keys(o.updated)
  }

  /** `ParseObject(class:data:)`: an object rehydrated from a stored document. */
  function Hydrate(cls: string, data: Doc): (o: ParseObject)
    ensures o.cls == cls && o.data == data && o.updated == []
    ensures Assoc.Unique(data) ==> Valid(o)
  {
    ParseObject(cls, data, [])
  }

  /** `ParseObject(_:id:)`. `parseObjectId` stands for `BSONObjectID(_:)`: the hex of the
      ObjectID the text denotes, or `None` when it is not one. */
  function New(cls: string, id: Option<string>, parseObjectId: string -> Option<string>): (o: ParseObject)
    ensures o.cls == cls && o.updated == [] && Valid(o)
    ensures id.None? ==> o.data == [] && Id(o) == None
    ensures id.Some? && parseObjectId(id.value).None? ==>
              Assoc.Get(o.data, "_id") == Some(Str(id.value)) && Id(o) == id
    ensures id.Some? && parseObjectId(id.value).Some? ==>
              Assoc.Get(o.data, "_id") == Some(ObjectId(parseObjectId(id.value).value)) &&
              Id(o) == parseObjectId(id.value)
  {
    match id
    case None => ParseObject(cls, [], [])
    case Some(text) =>
      var value := match parseObjectId(text)
        case Some(hex) => ObjectId(hex)
        case None => Str(text);
      ParseObject(cls, Assoc.Set([], "_id", value), [])
  }

  /** `object.id`: the ObjectID's hex, else the string stored under `_id`. */
  function Id(o: ParseObject): (id: Option<string>)
    ensures id.Some? ==> "_id" in Assoc.Keys(o.data)
    ensures forall h :: Assoc.Get(o.data, "_id") == Some(ObjectId(h)) ==> id == Some(h)
    ensures forall s :: Assoc.Get(o.data, "_id") == Some(Str(s)) ==> id == Some(s)
    ensures id.None? <==>
              Assoc.Get(o.data, "_id").None? ||
              (!Assoc.Get(o.data, "_id").value.ObjectId? && !Assoc.Get(o.data, "_id").value.Str?)
  {
    var stored: Option<BSON> := Assoc.Get(o.data, "_id");
    match stored
    case Some(ObjectId(hex)) => Some(hex)
    case Some(Str(s)) => Some(s)
    case _ => None
  }

  /** `object[key]` (get): the pending value, else the stored one, else null. */
  function Get(o: ParseObject, key: string): (value: BSON)
    ensures key in Assoc.Keys(o.updated) ==> Some(value) == Assoc.Get(o.updated, key)
    ensures key !in Assoc.Keys(o.updated) && key in Assoc.Keys(o.data) ==> Some(value) == Assoc.Get(o.data, key)
    ensures key !in Keys(o) ==> value == Null
  {
    Assoc.Get(o.updated, key).GetOr(Assoc.Get(o.data, key).GetOr(Null))
  }

  /** `object[key] = value`. Writing `_id` is a fatal error in the source, hence the
      precondition. */
  function Set(o: ParseObject, key: string, value: BSON): (r: ParseObject)
    requires key != "_id"
    ensures r.cls == o.cls && r.data == o.data
    ensures Get(r, key) == value
    ensures forall other :: other != key ==> Get(r, other) == Get(o, other)
    ensures Assoc.Get(r.updated, key) == Some(value)
    ensures forall other :: other != key ==> Assoc.Get(r.updated, other) == Assoc.Get(o.updated, other)
    ensures forall k :: k in Keys(r) <==> k in Keys(o) || k == key
    ensures Valid(o) ==> Valid(r)
  {
    if Assoc.Unique(o.updated) then
      Assoc.SetUnique(o.updated, key, value);
      ParseObject(o.cls, o.data, Assoc.Set(o.updated, key, value))
    else
      ParseObject(o.cls, o.data, Assoc.Set(o.updated, key, value))
  }

  /** `object.keys`: every stored or pending field name, once each, sorted. */
  function Keys(o: ParseObject): (ks: seq<string>)
    ensures Strings.StrictlySorted(ks)
    ensures forall k :: k in ks <==> k in Assoc.Keys(o.data) || k in Assoc.Keys(o.updated)
  {
    Strings.SortedDistinct(Assoc.Keys(o.data) + Assoc.Keys(o.updated))
  }

  /** `object.createdAt`. */
  function CreatedAt(o: ParseObject): (t: Option<int>)
    ensures t.Some? <==> Get(o, "_created_at").Date?
    ensures t.Some? ==> Get(o, "_created_at") == Date(t.value)
  {
    match Get(o, "_created_at")
    case Date(millis) => Some(millis)
    case _ => None
  }

  /** `object.updatedAt`. */
  function UpdatedAt(o: ParseObject): (t: Option<int>)
    ensures t.Some? <==> Get(o, "_updated_at").Date?
    ensures t.Some? ==> Get(o, "_updated_at") == Date(t.value)
  {
    match Get(o, "_updated_at")
    case Date(millis) => Some(millis)
    case _ => None
  }

  /** `BSONDocument.combine(_:)`: writes every entry of `other` over `base`, in order. */
  function Combine(base: Doc, other: Doc): (r: Doc)
    ensures forall k :: k in Assoc.Keys(r) <==> k in Assoc.Keys(base) || k in Assoc.Keys(other)
    ensures Assoc.Unique(other) ==>
              (forall k :: Assoc.Get(r, k) == if k in Assoc.Keys(other) then Assoc.Get(other, k) else Assoc.Get(base, k))
    decreases |other|
  {
    if |other| == 0 then base
    else
      assert Assoc.Unique(other) ==> Assoc.Unique(other[1..]);
      Combine(Assoc.Set(base, other[0].0, other[0].1), other[1..])
  }

  /** `object.toPointer()`: the `Class$id` text a pointer field stores. */
  function ToPointer(o: ParseObject): (p: Option<string>)
    ensures p.None? <==> Id(o).None?
    ensures p.Some? ==> p.value == o.cls + "$" + Id(o).value
  {
    match Id(o)
    case None => None
    case Some(id) => Some(o.cls + "$" + id)
  }

  /** The store call an entity operation issues. */
  datatype ObjectRequest =
    | FindOne(cls: string, filter: Doc)
    | DeleteOne(cls: string, filter: Doc)
    | UpdateOne(cls: string, filter: Doc, update: Doc)
    | InsertOne(cls: string, document: Doc)

  /** `object.fetch(from:)`: a lookup by `_id`, refused when there is no `_id`. */
  function FetchRequest(o: ParseObject): (r: Result<ObjectRequest, ParseError>)
    ensures r.Failure? <==> "_id" !in Assoc.Keys(o.data)
    ensures r.Failure? ==> r.error == NullObjectId
    ensures r.Success? ==> r.value == FindOne(o.cls, [("_id", Assoc.Get(o.data, "_id").value)])
  {
    match Assoc.Get(o.data, "_id")
    case None => Failure(NullObjectId)
    case Some(id) => Success(FindOne(o.cls, [("_id", id)]))
  }

  /** `object.delete(from:)`: a deletion by `_id`, refused when there is no `_id`. */
  function DeleteRequest(o: ParseObject): (r: Result<ObjectRequest, ParseError>)
    ensures r.Failure? <==> "_id" !in Assoc.Keys(o.data)
    ensures r.Failure? ==> r.error == NullObjectId
    ensures r.Success? ==> r.value == DeleteOne(o.cls, [("_id", Assoc.Get(o.data, "_id").value)])
  {
    match Assoc.Get(o.data, "_id")
    case None => Failure(NullObjectId)
    case Some(id) => Success(DeleteOne(o.cls, [("_id", id)]))
  }

  /** `object.save(to:)`: an update of the pending fields by `_id` when the object has
      one, else an insertion of the pending fields. */
  function SaveRequest(o: ParseObject): (r: ObjectRequest)
    ensures r.cls == o.cls
    ensures r.UpdateOne? <==> "_id" in Assoc.Keys(o.data)
    ensures r.UpdateOne? ==> r.filter == [("_id", Assoc.Get(o.data, "_id").value)]
    ensures r.UpdateOne? ==> r.update == [("$set", Document(o.updated))]
    ensures r.InsertOne? ==> r.document == o.updated
  {
    match Assoc.Get(o.data, "_id")
    case Some(id) => UpdateOne(o.cls, [("_id", id)], [("$set", Document(o.updated))])
    case None => InsertOne(o.cls, o.updated)
  }

  /** The object a successful save returns. On the update path the pending fields are
      folded into the stored ones; on the insert path the pending fields plus the
      inserted id become the stored document. Either way nothing is left pending. */
  function Saved(o: ParseObject, insertedId: BSON): (r: ParseObject)
    ensures r.cls == o.cls && r.updated == []
    ensures "_id" in Assoc.Keys(o.data) ==>
              forall k :: k in Assoc.Keys(r.data) <==> k in Assoc.Keys(o.data) || k in Assoc.Keys(o.updated)
    ensures "_id" in Assoc.Keys(o.data) && Assoc.Unique(o.updated) ==>
              forall k :: Assoc.Get(r.data, k) ==
                          if k in Assoc.Keys(o.updated) then Assoc.Get(o.updated, k) else Assoc.Get(o.data, k)
    ensures "_id" in Assoc.Keys(o.data) && Assoc.Unique(o.updated) ==>
              forall k :: Get(r, k) == Get(o, k)
    ensures "_id" !in Assoc.Keys(o.data) ==>
              Assoc.Get(r.data, "_id") == Some(insertedId) &&
              forall k :: k != "_id" ==> Assoc.Get(r.data, k) == Assoc.Get(o.updated, k)
  {
    if "_id" in Assoc.Keys(o.data) then ParseObject(o.cls, Combine(o.data, o.updated), [])
    else ParseObject(o.cls, Assoc.Set(o.updated, "_id", insertedId), [])
  }

  /** Saving a valid object that already has an id keeps the id. */
  lemma SaveKeepsId(o: ParseObject, insertedId: BSON)
    requires Valid(o)
    requires "_id" in Assoc.Keys(o.data)
    ensures Id(Saved(o, insertedId)) == Id(o)
    ensures Assoc.Get(Saved(o, insertedId).data, "_id") == Assoc.Get(o.data, "_id")
  {
    var r := Saved(o, insertedId);
    assert Get(r, "_id") == Get(o, "_id");
  }
}
