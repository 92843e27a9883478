/** Queries (Sources/ParseConnector/ParseQuery.swift).

    A `ParseQuery` is an immutable value built by chaining: each chain method returns
    a copy that differs in its own field only. A terminal operation checks that a class
    is set, compiles the filters and yields the request it would send to the store;
    the store, its answers and the futures that carry them are not modelled. The
    filters are held as `Predicate.Expr` trees, standing in for the store driver's own
    predicate type, and are combined by a left fold with `&&`. */
module Query {
  import opened Wrappers
  import opened Errors
  import opened Bson
  import Assoc
  import opened Predicate
  import Update
  import Acl

  datatype ParseQuery = ParseQuery(
    cls: Option<string>,
    filters: seq<Expr>,
    sort: Option<Doc>,
    limit: Option<int>,
    included: Option<set<string>>)

  /** `connection.parseQuery()`: no class, no filters, no sort, no limit, no include. */
  function NewQuery(): (q: ParseQuery)
    ensures q.cls.None? && q.filters == [] && q.sort.None? && q.limit.None? && q.included.None?
  {
    ParseQuery(None, [], None, None, None)
  }

  /** `query.class(_:)`. */
  function WithClass(q: ParseQuery, cls: string): (r: ParseQuery)
    ensures r.cls == Some(cls)
    ensures r.filters == q.filters && r.sort == q.sort && r.limit == q.limit && r.included == q.included
  {
    q.(cls := Some(cls))
  }

  /** `query.filter(_:)`: the new predicate goes after the earlier ones. */
  function Filter(q: ParseQuery, e: Expr): (r: ParseQuery)
    ensures |r.filters| == |q.filters| + 1
    ensures r.filters[..|q.filters|] == q.filters && r.filters[|q.filters|] == e
    ensures r.cls == q.cls && r.sort == q.sort && r.limit == q.limit && r.included == q.included
  {
    q.(filters := q.filters + [e])
  }

  /** `query.sort(_:)` with a sort document; it replaces any earlier sort. */
  function Sort(q: ParseQuery, sort: Doc): (r: ParseQuery)
    ensures r.sort == Some(sort)
    ensures r.cls == q.cls && r.filters == q.filters && r.limit == q.limit && r.included == q.included
  {
    q.(sort := Some(sort))
  }

  /** `query.limit(_:)`; it replaces any earlier limit. */
  function Limit(q: ParseQuery, limit: int): (r: ParseQuery)
    ensures r.limit == Some(limit)
    ensures r.cls == q.cls && r.filters == q.filters && r.sort == q.sort && r.included == q.included
  {
    q.(limit := Some(limit))
  }

  /** `query.include(_:)`, both the variadic and the sequence form: the keys are added
      to the included set, which is created when there was none. */
  function Include(q: ParseQuery, keys: seq<string>): (r: ParseQuery)
    ensures r.included.Some?
    ensures forall k :: k in r.included.value <==> (q.included.Some? && k in q.included.value) || k in keys
    ensures r.cls == q.cls && r.filters == q.filters && r.sort == q.sort && r.limit == q.limit
  {
    var added := set k | k in keys;
    match q.included
    case Some(existing) => q.(included := Some(existing + added))
    case None => q.(included := Some(added))
  }

  /** The projection of an include set: every included key mapped to 1. */
  function Projection(included: Option<set<string>>): (p: Option<map<string, BSON>>)
    ensures p.Some? <==> included.Some?
    ensures p.Some? ==> p.value.Keys == included.value
    ensures p.Some? ==> forall k :: k in p.value ==> p.value[k] == Int(1)
  {
    match included
    case Some(keys) => Some(map k | k in keys :: Int(1))
    case None => None
  }

  /** `filters.reduce { $0 && $1 }` on a non-empty list: a left fold. */
  function FoldAnd(filters: seq<Expr>): (e: Expr)
    requires |filters| > 0
    ensures |filters| == 1 ==> e == filters[0]
    ensures |filters| > 1 ==> e.And? && e.right == filters[|filters| - 1]
  {
    if |filters| == 1 then filters[0]
    else And(FoldAnd(filters[..|filters| - 1]), filters[|filters| - 1])
  }

  /** `filterBSONDocument()`: the empty document without filters, else the compiled
      fold. */
  function FilterDocument(q: ParseQuery): (r: Result<Doc, ParseError>)
    ensures |q.filters| == 0 ==> r == Success([])
    ensures |q.filters| == 1 ==> r == Compile(q.filters[0])
    ensures r.Success? ==> |r.value| <= 1
    ensures r.Failure? ==> r.error == InvalidExpression || r.error == NullObjectId
  {
    if |q.filters| == 0 then Success([]) else Compile(FoldAnd(q.filters))
  }

  /** Folding filters that are not themselves `and` nodes yields a chain whose
      flattened operands are exactly the filters, in order. */
  lemma {:induction false} FoldAndOperands(filters: seq<Expr>)
    requires |filters| > 0
    requires forall i :: 0 <= i < |filters| ==> !filters[i].And?
    ensures AndOperands(FoldAnd(filters)) == filters
    decreases |filters|
  {
    if |filters| > 1 {
      var init := filters[..|filters| - 1];
      FoldAndOperands(init);
      assert init + [filters[|filters| - 1]] == filters;
    }
  }

  /** Two or more filters that are not `and` nodes compile to one flat `$and` list of
      their own filters, in order; the query fails exactly when one of them does. */
  lemma FilterFlattens(q: ParseQuery)
    requires |q.filters| >= 2
    requires forall i :: 0 <= i < |q.filters| ==> !q.filters[i].And?
    ensures FilterDocument(q).Success? <==> forall i :: 0 <= i < |q.filters| ==> Compile(q.filters[i]).Success?
    ensures FilterDocument(q).Success? ==>
              && Assoc.Keys(FilterDocument(q).value) == ["$and"]
              && FilterDocument(q).value[0].1.Array?
              && |FilterDocument(q).value[0].1.elems| == |q.filters|
              && forall i :: 0 <= i < |q.filters| ==>
                   FilterDocument(q).value[0].1.elems[i] == Document(Compile(q.filters[i]).value)
  {
    var n := |q.filters|;
    var init := q.filters[..n - 1];
    FoldAndOperands(init);
    AndCompiles(FoldAnd(init), q.filters[n - 1]);
    assert AndOperands(FoldAnd(init)) + AndOperands(q.filters[n - 1]) == q.filters;
  }

  /** Which document the caller gets back from `findOneAndUpdate`. */
  datatype ReturnDocument = Before | After

  /** The store call a terminal operation issues. */
  datatype Request =
    | CountRequest(cls: string, filter: Doc)
    | FindOneRequest(cls: string, filter: Doc, sort: Option<Doc>, projection: Option<map<string, BSON>>)
    | FindRequest(cls: string, filter: Doc, sort: Option<Doc>, limit: Option<int>, projection: Option<map<string, BSON>>)
    | FindOneAndUpdateRequest(cls: string, filter: Doc, update: Doc, upsert: bool, returnDocument: ReturnDocument,
                              sort: Option<Doc>, projection: Option<map<string, BSON>>)
    | FindOneAndDeleteRequest(cls: string, filter: Doc, sort: Option<Doc>, projection: Option<map<string, BSON>>)
    | DeleteManyRequest(cls: string, filter: Doc)
    | AggregateRequest(cls: string, pipeline: seq<Doc>)

  /** `query.count()`. */
  function Count(q: ParseQuery): (r: Result<Request, ParseError>)
    ensures q.cls.None? ==> r == Failure(ClassNotSet)
    ensures q.cls.Some? && FilterDocument(q).Failure? ==> r == Failure(FilterDocument(q).error)
    ensures r.Success? <==> q.cls.Some? && FilterDocument(q).Success?
    ensures r.Success? ==> r.value == CountRequest(q.cls.value, FilterDocument(q).value)
  {
    if q.cls.None? then Failure(ClassNotSet)
    else
      var filter :- FilterDocument(q);
      Success(CountRequest(q.cls.value, filter))
  }

  /** `query.findOne()`: sorted and projected when the query says so; no limit. */
  function FindOne(q: ParseQuery): (r: Result<Request, ParseError>)
    ensures q.cls.None? ==> r == Failure(ClassNotSet)
    ensures q.cls.Some? && FilterDocument(q).Failure? ==> r == Failure(FilterDocument(q).error)
    ensures r.Success? <==> q.cls.Some? && FilterDocument(q).Success?
    ensures r.Success? ==> r.value == FindOneRequest(q.cls.value, FilterDocument(q).value, q.sort, Projection(q.included))
  {
    if q.cls.None? then Failure(ClassNotSet)
    else
      var filter :- FilterDocument(q);
      Success(FindOneRequest(q.cls.value, filter, q.sort, Projection(q.included)))
  }

  /** `query.execute()`, behind `toArray()` and `forEach(_:)`: sorted, limited and
      projected when the query says so. */
  function Find(q: ParseQuery): (r: Result<Request, ParseError>)
    ensures q.cls.None? ==> r == Failure(ClassNotSet)
    ensures q.cls.Some? && FilterDocument(q).Failure? ==> r == Failure(FilterDocument(q).error)
    ensures r.Success? <==> q.cls.Some? && FilterDocument(q).Success?
    ensures r.Success? ==>
              r.value == FindRequest(q.cls.value, FilterDocument(q).value, q.sort, q.limit, Projection(q.included))
  {
    if q.cls.None? then Failure(ClassNotSet)
    else
      var filter :- FilterDocument(q);
      Success(FindRequest(q.cls.value, filter, q.sort, q.limit, Projection(q.included)))
  }

  /** `query.findOneAndDelete()`. */
  function FindOneAndDelete(q: ParseQuery): (r: Result<Request, ParseError>)
    ensures q.cls.None? ==> r == Failure(ClassNotSet)
    ensures q.cls.Some? && FilterDocument(q).Failure? ==> r == Failure(FilterDocument(q).error)
    ensures r.Success? <==> q.cls.Some? && FilterDocument(q).Success?
    ensures r.Success? ==>
              r.value == FindOneAndDeleteRequest(q.cls.value, FilterDocument(q).value, q.sort, Projection(q.included))
  {
    if q.cls.None? then Failure(ClassNotSet)
    else
      var filter :- FilterDocument(q);
      Success(FindOneAndDeleteRequest(q.cls.value, filter, q.sort, Projection(q.included)))
  }

  /** `query.deleteAll()`: neither sort nor limit applies. */
  function DeleteAll(q: ParseQuery): (r: Result<Request, ParseError>)
    ensures q.cls.None? ==> r == Failure(ClassNotSet)
    ensures q.cls.Some? && FilterDocument(q).Failure? ==> r == Failure(FilterDocument(q).error)
    ensures r.Success? <==> q.cls.Some? && FilterDocument(q).Success?
    ensures r.Success? ==> r.value == DeleteManyRequest(q.cls.value, FilterDocument(q).value)
  {
    if q.cls.None? then Failure(ClassNotSet)
    else
      var filter :- FilterDocument(q);
      Success(DeleteManyRequest(q.cls.value, filter))
  }

  /** The stages an aggregation starts with: `$match` when the filter is not empty,
      then `$sort` when a sort is set, then `$limit` when a limit is set. */
  function PipelinePrefix(filter: Doc, sort: Option<Doc>, limit: Option<int>): (stages: seq<Doc>)
    ensures |stages| == (if |filter| > 0 then 1 else 0) + (if sort.Some? then 1 else 0) + (if limit.Some? then 1 else 0)
    ensures |filter| > 0 ==> stages[0] == [("$match", Document(filter))]
    ensures sort.Some? ==> stages[if |filter| > 0 then 1 else 0] == [("$sort", Document(sort.value))]
    ensures limit.Some? ==> stages[|stages| - 1] == [("$limit", Int(limit.value))]
    ensures forall i :: 0 <= i < |stages| ==> |stages[i]| == 1
  {
    var matchStage: seq<Doc> := if |filter| > 0 then [[("$match", Document(filter))]] else [];
    var sortStage: seq<Doc> := if sort.Some? then [[("$sort", Document(sort.value))]] else [];
    var limitStage: seq<Doc> := if limit.Some? then [[("$limit", Int(limit.value))]] else [];
    matchStage + sortStage + limitStage
  }

  /** `query.pipeline(_:)` (and `pipeline(asClass:_:)`, `pipeline(as:_:)`): the prefix
      stages, then the caller's own. */
  function Pipeline(q: ParseQuery, stages: seq<Doc>): (r: Result<Request, ParseError>)
    ensures q.cls.None? ==> r == Failure(ClassNotSet)
    ensures q.cls.Some? && FilterDocument(q).Failure? ==> r == Failure(FilterDocument(q).error)
    ensures r.Success? <==> q.cls.Some? && FilterDocument(q).Success?
    ensures r.Success? ==> r.value.AggregateRequest? && r.value.cls == q.cls.value
    ensures r.Success? ==>
              var prefix := PipelinePrefix(FilterDocument(q).value, q.sort, q.limit);
              |r.value.pipeline| == |prefix| + |stages| &&
              r.value.pipeline[..|prefix|] == prefix && r.value.pipeline[|prefix|..] == stages
  {
    if q.cls.None? then Failure(ClassNotSet)
    else
      var filter :- FilterDocument(q);
      var prefix := PipelinePrefix(filter, q.sort, q.limit);
      assert (prefix + stages)[..|prefix|] == prefix;
      assert (prefix + stages)[|prefix|..] == stages;
      Success(AggregateRequest(q.cls.value, prefix + stages))
  }

  /** `update["_acl"]?.value`: the ACL value written by a `.set` of `_acl`, if any. */
  function AclValue(ops: Update.Ops): (v: Option<BSON>)
    ensures v.Some? <==> Assoc.Get(ops, "_acl").Some? && Assoc.Get(ops, "_acl").value.Set?
    ensures v.Some? ==> Assoc.Get(ops, "_acl") == Some(Update.Set(v.value))
  {
    match Assoc.Get(ops, "_acl")
    case Some(op) => Update.SetValue(op)
    case None => None
  }

  /** Sets `_rperm` and `_wperm` to the principals an ACL lets read and write. */
  function WithPermLists(ops: Update.Ops, acl: Acl.ParseACL): (r: Update.Ops)
    ensures Assoc.Get(r, "_rperm") == Some(Update.Set(StringArray(Acl.RPerm(acl))))
    ensures Assoc.Get(r, "_wperm") == Some(Update.Set(StringArray(Acl.WPerm(acl))))
    ensures forall k :: k != "_rperm" && k != "_wperm" ==> Assoc.Get(r, k) == Assoc.Get(ops, k)
    ensures Assoc.Unique(ops) ==> Assoc.Unique(r)
  {
    var withRead := Assoc.Set(ops, "_rperm", Update.Set(StringArray(Acl.RPerm(acl))));
    Assoc.SetUnique(ops, "_rperm", Update.Set(StringArray(Acl.RPerm(acl))));
    Assoc.SetUnique(withRead, "_wperm", Update.Set(StringArray(Acl.WPerm(acl))));
    Assoc.Set(withRead, "_wperm", Update.Set(StringArray(Acl.WPerm(acl))))
  }

  /** Sets `_updated_at` to now. */
  function Stamp(ops: Update.Ops, now: int): (r: Update.Ops)
    ensures Assoc.Get(r, "_updated_at") == Some(Update.Set(Date(now)))
    ensures forall k :: k != "_updated_at" ==> Assoc.Get(r, k) == Assoc.Get(ops, k)
    ensures AclValue(r) == AclValue(ops)
    ensures Assoc.Unique(ops) ==> Assoc.Unique(r)
  {
    Assoc.SetUnique(ops, "_updated_at", Update.Set(Date(now)));
    var r := Assoc.Set(ops, "_updated_at", Update.Set(Date(now)));
    assert Assoc.Get(r, "_acl") == Assoc.Get(ops, "_acl");
    r
  }

  /** The operations `findOneAndUpdate` actually applies: `_updated_at` is set to now,
      and a `.set` of `_acl` also sets `_rperm` and `_wperm` to the principals that ACL
      lets read and write. Nothing else changes. */
  function PrepareOps(ops: Update.Ops, now: int): (r: Update.Ops)
    ensures Assoc.Get(r, "_updated_at") == Some(Update.Set(Date(now)))
    ensures AclValue(r) == AclValue(ops)
    ensures AclValue(ops).Some? ==>
              && Assoc.Get(r, "_rperm") == Some(Update.Set(StringArray(Acl.RPerm(Acl.FromBson(AclValue(ops).value)))))
              && Assoc.Get(r, "_wperm") == Some(Update.Set(StringArray(Acl.WPerm(Acl.FromBson(AclValue(ops).value)))))
    ensures AclValue(ops).None? ==> forall k :: k != "_updated_at" ==> Assoc.Get(r, k) == Assoc.Get(ops, k)
    ensures forall k :: k != "_updated_at" && k != "_rperm" && k != "_wperm" ==> Assoc.Get(r, k) == Assoc.Get(ops, k)
    ensures Assoc.Unique(ops) ==> Assoc.Unique(r)
  {
    var stamped := Stamp(ops, now);
    if AclValue(ops).Some? then
      var r := WithPermLists(stamped, Acl.FromBson(AclValue(ops).value));
      assert Assoc.Get(r, "_acl") == Assoc.Get(stamped, "_acl");
      r
    else
      stamped
  }

  /** Sets `_id` to a fresh id and `_created_at` to now. */
  function WithIdAndCreation(d: Doc, now: int, freshId: string): (r: Doc)
    ensures Assoc.Get(r, "_id") == Some(Str(freshId))
    ensures Assoc.Get(r, "_created_at") == Some(Date(now))
    ensures forall k :: k != "_id" && k != "_created_at" ==> Assoc.Get(r, k) == Assoc.Get(d, k)
  {
    Assoc.Set(Assoc.Set(d, "_id", Str(freshId)), "_created_at", Date(now))
  }

  /** Sets an empty `_acl` with empty `_rperm` and `_wperm`. */
  function WithEmptyAcl(d: Doc): (r: Doc)
    ensures Assoc.Get(r, "_acl") == Some(Document([]))
    ensures Assoc.Get(r, "_rperm") == Some(Array([]))
    ensures Assoc.Get(r, "_wperm") == Some(Array([]))
    ensures forall k :: k != "_acl" && k != "_rperm" && k != "_wperm" ==> Assoc.Get(r, k) == Assoc.Get(d, k)
  {
    Assoc.Set(Assoc.Set(Assoc.Set(d, "_acl", Document([])), "_rperm", Array([])), "_wperm", Array([]))
  }

  /** The `$setOnInsert` document of an upsert: the caller's fields with `_id` set to a
      fresh id and `_created_at` to now; and, when no ACL is being set, an empty
      `_acl` with empty `_rperm` and `_wperm`. `freshId` is the hex of the ObjectID
      generated for the call. */
  function SetOnInsert(setOnInsert: Doc, acl: Option<BSON>, now: int, freshId: string): (r: Doc)
    ensures Assoc.Get(r, "_id") == Some(Str(freshId))
    ensures Assoc.Get(r, "_created_at") == Some(Date(now))
    ensures acl.None? ==>
              && Assoc.Get(r, "_acl") == Some(Document([]))
              && Assoc.Get(r, "_rperm") == Some(Array([]))
              && Assoc.Get(r, "_wperm") == Some(Array([]))
    ensures acl.Some? ==> forall k :: k != "_id" && k != "_created_at" ==> Assoc.Get(r, k) == Assoc.Get(setOnInsert, k)
    ensures forall k :: k != "_id" && k != "_created_at" && k != "_acl" && k != "_rperm" && k != "_wperm" ==>
              Assoc.Get(r, k) == Assoc.Get(setOnInsert, k)
  {
    if acl.None? then WithIdAndCreation(WithEmptyAcl(setOnInsert), now, freshId)
    else WithIdAndCreation(setOnInsert, now, freshId)
  }

  /** `$setOnInsert` is longer than any update operator, so it is never a key of a
      compiled update. */
  lemma SetOnInsertIsNotAnOperator(ops: Update.Ops)
    ensures "$setOnInsert" !in Assoc.Keys(Update.UpdateDocument(ops))
  {
    assert |"$setOnInsert"| == 12;
  }

  /** The update document `findOneAndUpdate` sends: the compiled prepared operations,
      plus `$setOnInsert` when upserting. */
  function UpdateRequestDocument(ops: Update.Ops, setOnInsert: Doc, upsert: bool, now: int, freshId: string): (r: Doc)
    ensures "$setOnInsert" in Assoc.Keys(r) <==> upsert
    ensures upsert ==>
              Assoc.Get(r, "$setOnInsert") == Some(Document(SetOnInsert(setOnInsert, AclValue(ops), now, freshId)))
    ensures forall b :: Assoc.Get(r, Update.OperatorOf(b)) == Assoc.Get(Update.UpdateDocument(PrepareOps(ops, now)), Update.OperatorOf(b))
  {
    var prepared := PrepareOps(ops, now);
    var update := Update.UpdateDocument(prepared);
    SetOnInsertIsNotAnOperator(prepared);
    if upsert then
      Assoc.Set(update, "$setOnInsert", Document(SetOnInsert(setOnInsert, AclValue(prepared), now, freshId)))
    else
      update
  }

  /** The public `_findOneAndUpdate(_:_:upsert:returnDocument:)` on ready-made filter
      and update documents. */
  function FindOneAndUpdateWith(q: ParseQuery, filter: Doc, update: Doc, upsert: bool, returnDocument: ReturnDocument)
    : (r: Result<Request, ParseError>)
    ensures r.Failure? <==> q.cls.None?
    ensures r.Failure? ==> r.error == ClassNotSet
    ensures r.Success? ==>
              r.value == FindOneAndUpdateRequest(q.cls.value, filter, update, upsert, returnDocument, q.sort, Projection(q.included))
  {
    match q.cls
    case None => Failure(ClassNotSet)
    case Some(cls) => Success(FindOneAndUpdateRequest(cls, filter, update, upsert, returnDocument, q.sort, Projection(q.included)))
  }

  /** The private `_findOneAndUpdate` behind the four `findOneAndUpdate` overloads.
      The filter is compiled before the class is checked, so a filter error wins over
      `classNotSet`. */
  function FindOneAndUpdate(q: ParseQuery, ops: Update.Ops, setOnInsert: Doc, upsert: bool,
                            returnDocument: ReturnDocument, now: int, freshId: string): (r: Result<Request, ParseError>)
    ensures FilterDocument(q).Failure? ==> r == Failure(FilterDocument(q).error)
    ensures FilterDocument(q).Success? && q.cls.None? ==> r == Failure(ClassNotSet)
    ensures r.Success? <==> FilterDocument(q).Success? && q.cls.Some?
    ensures r.Success? ==>
              r.value == FindOneAndUpdateRequest(q.cls.value, FilterDocument(q).value,
                                                 UpdateRequestDocument(ops, setOnInsert, upsert, now, freshId),
                                                 upsert, returnDocument, q.sort, Projection(q.included))
  {
    var filter :- FilterDocument(q);
    FindOneAndUpdateWith(q, filter, UpdateRequestDocument(ops, setOnInsert, upsert, now, freshId), upsert, returnDocument)
  }

  /** `update.mapValues { .set($0) }`: the overloads taking plain values set each
      field to its value. */
  function SetAll(values: Doc): (ops: Update.Ops)
    ensures Assoc.Keys(ops) == Assoc.Keys(values)
    ensures forall k :: Assoc.Get(ops, k).Some? ==> Assoc.Get(values, k).Some? && Assoc.Get(ops, k) == Some(Update.Set(Assoc.Get(values, k).value))
  {
    if |values| == 0 then []
    else [(values[0].0, Update.Set(values[0].1))] + SetAll(values[1..])
  }

  /** Every terminal operation fails with `classNotSet` when no class is set, except
      that `findOneAndUpdate` reports a filter error first. */
  lemma NoClassFails(q: ParseQuery, ops: Update.Ops, setOnInsert: Doc, upsert: bool,
                     returnDocument: ReturnDocument, now: int, freshId: string, stages: seq<Doc>, filter: Doc, update: Doc)
    requires q.cls.None?
    ensures Count(q) == Failure(ClassNotSet) && FindOne(q) == Failure(ClassNotSet) && Find(q) == Failure(ClassNotSet)
    ensures FindOneAndDelete(q) == Failure(ClassNotSet) && DeleteAll(q) == Failure(ClassNotSet)
    ensures Pipeline(q, stages) == Failure(ClassNotSet)
    ensures FindOneAndUpdateWith(q, filter, update, upsert, returnDocument) == Failure(ClassNotSet)
    ensures FindOneAndUpdate(q, ops, setOnInsert, upsert, returnDocument, now, freshId).Failure?
    ensures FilterDocument(q).Success? ==>
              FindOneAndUpdate(q, ops, setOnInsert, upsert, returnDocument, now, freshId) == Failure(ClassNotSet)
  {
  }

  /** The `$set` entry of a prepared update always stamps `_updated_at` with now. */
  lemma UpdateStampsTime(ops: Update.Ops, setOnInsert: Doc, upsert: bool, now: int, freshId: string)
    requires Assoc.Unique(ops)
    ensures var update := UpdateRequestDocument(ops, setOnInsert, upsert, now, freshId);
            && Assoc.Get(update, "$set").Some?
            && Assoc.Get(update, "$set").value.Document?
            && Assoc.Get(Assoc.Get(update, "$set").value.fields, "_updated_at") == Some(Date(now))
  {
    Update.SetPlacesValue(PrepareOps(ops, now), "_updated_at", Date(now));
    assert Update.OperatorOf(Update.SetBucket) == "$set";
  }

  /** When the update sets `_acl` to a document, `$set` also carries `_rperm` and
      `_wperm`: the principals of that ACL granted read, and write, in ACL order. */
  lemma AclSetsPermLists(ops: Update.Ops, setOnInsert: Doc, upsert: bool, now: int, freshId: string)
    requires Assoc.Unique(ops)
    requires AclValue(ops).Some?
    ensures var update := UpdateRequestDocument(ops, setOnInsert, upsert, now, freshId);
            var acl := Acl.FromBson(AclValue(ops).value);
            && Assoc.Get(update, "$set").Some?
            && Assoc.Get(update, "$set").value.Document?
            && Assoc.Get(Assoc.Get(update, "$set").value.fields, "_rperm") == Some(StringArray(Acl.RPerm(acl)))
            && Assoc.Get(Assoc.Get(update, "$set").value.fields, "_wperm") == Some(StringArray(Acl.WPerm(acl)))
  {
    var prepared := PrepareOps(ops, now);
    var acl := Acl.FromBson(AclValue(ops).value);
    Update.SetPlacesValue(prepared, "_rperm", StringArray(Acl.RPerm(acl)));
    Update.SetPlacesValue(prepared, "_wperm", StringArray(Acl.WPerm(acl)));
    assert Update.OperatorOf(Update.SetBucket) == "$set";
  }

  /** Setting `_acl` to null is a `.set` like any other: `_acl` itself goes under
      `$unset`. */
  lemma NullAclUnsets(ops: Update.Ops, now: int)
    requires Assoc.Unique(ops)
    requires Assoc.Get(ops, "_acl") == Some(Update.Set(Null))
    ensures var update := Update.UpdateDocument(PrepareOps(ops, now));
            && Assoc.Get(update, "$unset").Some?
            && Assoc.Get(update, "$unset").value.Document?
            && Assoc.Get(Assoc.Get(update, "$unset").value.fields, "_acl") == Some(Str(""))
  {
    var prepared := PrepareOps(ops, now);
    assert Assoc.Get(prepared, "_acl") == Some(Update.Set(Null));
    Update.NullSetUnsets(prepared, "_acl");
  }

  /** Yet the ACL read from null is the public default, so `_rperm` and `_wperm` become
      `["*"]` while `_acl` itself is unset. */
  lemma NullAclIsPublic(ops: Update.Ops, setOnInsert: Doc, upsert: bool, now: int, freshId: string)
    requires Assoc.Unique(ops)
    requires Assoc.Get(ops, "_acl") == Some(Update.Set(Null))
    ensures var update := UpdateRequestDocument(ops, setOnInsert, upsert, now, freshId);
            && Assoc.Get(update, "$unset").Some?
            && Assoc.Get(update, "$unset").value.Document?
            && Assoc.Get(Assoc.Get(update, "$unset").value.fields, "_acl") == Some(Str(""))
            && Assoc.Get(update, "$set").Some?
            && Assoc.Get(update, "$set").value.Document?
            && Assoc.Get(Assoc.Get(update, "$set").value.fields, "_rperm") == Some(StringArray([Acl.Public]))
            && Assoc.Get(Assoc.Get(update, "$set").value.fields, "_wperm") == Some(StringArray([Acl.Public]))
  {
    NullAclUnsets(ops, now);
    assert Update.OperatorOf(Update.UnsetBucket) == "$unset";
    var update := UpdateRequestDocument(ops, setOnInsert, upsert, now, freshId);
    assert Assoc.Get(update, "$unset") == Assoc.Get(Update.UpdateDocument(PrepareOps(ops, now)), "$unset");
    assert AclValue(ops) == Some(Null);
    Acl.DefaultPermLists(Null);
    AclSetsPermLists(ops, setOnInsert, upsert, now, freshId);
  }
}
