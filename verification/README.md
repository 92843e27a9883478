# ParseConnector core, modelled in Dafny

ParseConnector is a Swift library that stores Parse-style entities in MongoDB. Its core is a set of pure value transformations. This project models each of them and proves what they promise:

- **Filter compilation.** Typed predicate expressions (`ParsePredicateExpression`) compile to filter documents (`Predicate`). They are built with operator sugar (`PredicateDsl`) over key leaves (`PredicateBuilder`).
- **Update compilation.** A dictionary of per-field update operations (`ParseUpdateOperation`) is grouped into an update document (`Update`).
- **Access-control lists.** `ParseACL` is a principal→{read, write} table (`Acl`).
- **Entities.** `ParseObject` holds stored and pending fields, and its store calls are modelled as requests (`ParseObjects`). It has pointer comparisons (`PointerPredicates`).
- **Queries.** `ParseQuery` is an immutable chainable value. Its terminal operations are modelled as the request each would send, or the error it throws (`Query`).

Supporting modules:

- `Wrappers`: Swift optionals and `throws` as `Option` and `Result`.
- `Errors`: the four `ParseError` cases.
- `Bson`: BSON values. A document is an ordered list of key/value pairs.
- `Assoc`: the replace-in-place-or-append semantics of BSON documents and Swift dictionaries.
- `Strings`: the key ordering used by `ParseObject.keys`.

Some behaviours are reproduced exactly as written, not as one might expect:

- A comparison whose operands are swapped (value first, key second) keeps its operator. So `key =~ a..<b` compiles to `{$and: [{key: {$lte: a}}, {key: {$lt: b}}]}`.
- The update compiler emits `$addToSet` when the add-to-set bucket is non-empty, but fills it with the *push* bucket.
- The private `findOneAndUpdate` compiles the filter before the public `_findOneAndUpdate` checks the class. A filter error therefore wins over `classNotSet` there.
- Setting `_acl` to null unsets `_acl`, yet `_rperm`/`_wperm` become `["*"]`. The ACL read from a non-document is the public default.
- `fetch` and `delete` check only that `_id` is present, whatever its value.

Clock readings, generated ObjectIDs and ObjectID parsing are parameters:

- `now` is a date in milliseconds.
- `freshId` is the generated id's hex text.
- `parseObjectId` maps text to the hex of the ObjectID it denotes, or to nothing.

## Model

| member | source | states |
|---|---|---|
| Acl.Default | Sources/ParseConnector/ParseACL.swift:14-16 | the default ACL has the single principal `*`, which may read and write |
| Acl.FromBson | Sources/ParseConnector/ParseACL.swift:6-8 | a document value is the ACL itself; any other value gives the default ACL |
| Acl.Principals | Sources/ParseConnector/ParseACL.swift:21-27 | the listed principals are exactly the entries whose permission holds boolean true under the flag, in document order (a subsequence of the keys) |
| Acl.RPerm | Sources/ParseConnector/ParseACL.swift:21-23 | `rperm` keeps, in document order, exactly the principals of entries holding `r: true` |
| Acl.WPerm | Sources/ParseConnector/ParseACL.swift:25-27 | `wperm` keeps, in document order, exactly the principals of entries holding `w: true` |
| Acl.PermListsAgreeWithGetter | Sources/ParseConnector/ParseACL.swift:21-27 | with unique keys, a principal is in `rperm` iff the getter says it may read, and in `wperm` iff it may write; both lists keep ACL order |
| Acl.Listed | Sources/ParseConnector/ParseACL.swift:21-27 | with unique keys, a principal is listed for a flag iff its own entry grants that flag |
| Acl.DefaultPermLists | Sources/ParseConnector/ParseACL.swift:6-8 | an ACL read from a non-document lists only `*` in both `rperm` and `wperm` |
| Acl.PermFromDoc | Sources/ParseConnector/ParseACL.swift:71-74 | read (write) is set iff `r` (`w`) holds boolean true; a missing key or any other value decodes to false |
| Acl.PermFromBson | Sources/ParseConnector/ParseACL.swift:67-69 | a non-document permission entry decodes to no permission |
| Acl.PermToBson | Sources/ParseConnector/ParseACL.swift:87-92 | the encoding holds `true` under exactly the granted flags and never `false`; decoding it gives back the permission |
| Acl.GetPerm | Sources/ParseConnector/ParseACL.swift:45-48 | a principal without an entry has no permission; otherwise its entry is decoded |
| Acl.SetPerm | Sources/ParseConnector/ParseACL.swift:49-55 | reading back gives the permission set; a permission granting something is stored encoded, in the principal's existing place or appended after the others; one granting nothing removes the principal, and leaves an ACL without it as it was; every other principal's entry is unchanged |
| Acl.GetPublic | Sources/ParseConnector/ParseACL.swift:32-35 | the public getter agrees with the subscript getter on `*` |
| Acl.SetPublic | Sources/ParseConnector/ParseACL.swift:36-42 | the public setter agrees with the subscript setter on `*` |
| Acl.ToBson | Sources/ParseConnector/ParseACL.swift:80-82 | reading the ACL back from its BSON value gives the same ACL |
| ParseObjects.Hydrate | Sources/ParseConnector/ParseObject.swift:12-15 | a hydrated object holds the stored document and nothing pending |
| ParseObjects.New | Sources/ParseConnector/ParseObject.swift:17-23 | with no id the document is empty; an id that parses as an ObjectID is stored as one; any other id is stored as a string, and `id` returns the given text |
| ParseObjects.Id | Sources/ParseConnector/ParseObject.swift:28-31 | a stored ObjectID gives its hex, a stored string gives itself, and a missing `_id` or any other stored value gives no id |
| ParseObjects.Get | Sources/ParseConnector/ParseObject.swift:45-48 | a read gives the pending value, else the stored value, else null |
| ParseObjects.Set | Sources/ParseConnector/ParseObject.swift:49-52 | writing a key other than `_id` makes `value` the pending value of that key and leaves every other pending value as it was; the stored document and every other read are unchanged; well-formedness is kept |
| ParseObjects.Keys | Sources/ParseConnector/ParseObject.swift:41-43 | `keys` is strictly sorted, with no duplicates, and holds exactly the stored and pending keys |
| ParseObjects.CreatedAt | Sources/ParseConnector/ParseObject.swift:33-35 | a creation date exists iff `_created_at` reads as a date, and it is that date |
| ParseObjects.UpdatedAt | Sources/ParseConnector/ParseObject.swift:37-39 | an update date exists iff `_updated_at` reads as a date, and it is that date |
| ParseObjects.Combine | Sources/ParseConnector/ParseObject.swift:66-72 | the combination has the keys of both documents; with unique keys in `other`, each value is `other`'s when it has the key, else the base's |
| ParseObjects.ToPointer | Sources/ParseConnector/ParseObject.swift:140-143 | the pointer is missing iff the id is, and is otherwise `class$id` |
| ParseObjects.FetchRequest | Sources/ParseConnector/ParseObject.swift:58-61 | a fetch fails with `nullObjectId` iff `_id` is missing, else looks the object up by its `_id` |
| ParseObjects.DeleteRequest | Sources/ParseConnector/ParseObject.swift:103-106 | a delete fails with `nullObjectId` iff `_id` is missing, else deletes by `_id` |
| ParseObjects.SaveRequest | Sources/ParseConnector/ParseObject.swift:77-101 | with `_id` a save updates the document whose `_id` is the stored one, with `$set` of the pending fields; without it, it inserts the pending fields |
| ParseObjects.Saved | Sources/ParseConnector/ParseObject.swift:79-100 | after a save nothing is pending; on the update path the stored document has the stored and pending keys, a pending key holding its pending value and any other its stored one, so every read is unchanged; on the insert path the stored document is the pending fields plus the inserted id |
| ParseObjects.SaveKeepsId | Sources/ParseConnector/ParseObject.swift:79-86 | saving an object that has an id keeps that id |
| Predicate.AndList | Sources/ParseConnector/Predicate/ParsePredicateExpression.swift:40-48 | only an `and` node has an and-list, and no element of the list is an `and` node |
| Predicate.OrList | Sources/ParseConnector/Predicate/ParsePredicateExpression.swift:50-58 | only an `or` node has an or-list, and no element of the list is an `or` node |
| Predicate.CompileComparison | Sources/ParseConnector/Predicate/ParsePredicateExpression.swift:67-119 | a compiled comparison has one top-level key, and its only errors are `invalidExpression` and `nullObjectId` |
| Predicate.Compile | Sources/ParseConnector/Predicate/ParsePredicateExpression.swift:60-137 | every compiled filter has exactly one top-level key, and the only errors are `invalidExpression` and `nullObjectId` |
| Predicate.CompileList | Sources/ParseConnector/Predicate/ParsePredicateExpression.swift:121-133 | a compiled operand list has one filter per operand |
| Predicate.CompileListSpec | Sources/ParseConnector/Predicate/ParsePredicateExpression.swift:126-126 | the list compiles iff every operand does, into the operands' filters in order; otherwise the first failing operand's error |
| Predicate.SwappedOperandsKeepOperator | Sources/ParseConnector/Predicate/ParsePredicateExpression.swift:67-115 | key-vs-value and value-vs-key give the same `{key: {op: value}}` with the same, unmirrored operator; membership with the value on the left is invalid |
| Predicate.EntityOperand | Sources/ParseConnector/Predicate/ParsePredicateExpression.swift:77-87 | equality with an entity compares the key with `Class$id`, in either operand order, and fails with `nullObjectId` when the entity has no id |
| Predicate.ComparisonShapes | Sources/ParseConnector/Predicate/ParsePredicateExpression.swift:67-135 | a comparison is `invalidExpression` iff its operands are not one of the accepted shapes; it is `nullObjectId` iff it is an accepted entity comparison with no id |
| Predicate.MatchingShapes | Sources/ParseConnector/Predicate/ParsePredicateExpression.swift:117-119 | a regex match compiles to `$regex` on a key and is invalid on anything else |
| Predicate.NotCompiles | Sources/ParseConnector/Predicate/ParsePredicateExpression.swift:63-65 | `not` wraps its operand's filter under `$not` and passes its error through |
| Predicate.AndCompiles | Sources/ParseConnector/Predicate/ParsePredicateExpression.swift:121-126 | an `and` compiles iff each operand of the flattened chain does, into one `$and` list in order; otherwise the first failing operand's error |
| Predicate.OrCompiles | Sources/ParseConnector/Predicate/ParsePredicateExpression.swift:128-133 | an `or` compiles iff each operand of the flattened chain does, into one `$or` list in order; otherwise the first failing operand's error |
| Predicate.AndAssociative | Sources/ParseConnector/Predicate/ParsePredicateExpression.swift:40-48 | `and(and(a,b),c)` and `and(a,and(b,c))` compile alike |
| Predicate.OrAssociative | Sources/ParseConnector/Predicate/ParsePredicateExpression.swift:50-58 | `or(or(a,b),c)` and `or(a,or(b,c))` compile alike |
| Predicate.AndOfThree | Sources/ParseConnector/Predicate/ParsePredicateExpression.swift:121-126 | three non-`and` conjuncts compile to one flat `$and` list of three filters, in order, under either grouping |
| Predicate.OrOfThree | Sources/ParseConnector/Predicate/ParsePredicateExpression.swift:128-133 | three non-`or` disjuncts compile to one flat `$or` list of three filters, in order, under either grouping |
| Predicate.MixedOperatorsNest | Sources/ParseConnector/Predicate/ParsePredicateExpression.swift:40-58 | flattening stops at the other operator: an `or` inside an `and` stays one element of the `$and` list |
| PredicateDsl.EqualsNil | Sources/ParseConnector/Predicate/ParsePredicateExpression.swift:140-142 | `key == nil` compiles to `{key: {$eq: null}}`; a non-key operand is invalid |
| PredicateDsl.NotEqualsNil | Sources/ParseConnector/Predicate/ParsePredicateExpression.swift:144-146 | `key != nil` compiles to `{key: {$ne: null}}`; a non-key operand is invalid |
| PredicateDsl.NilEquals | Sources/ParseConnector/Predicate/ParsePredicateExpression.swift:180-182 | `nil == key` compiles to `{key: {$eq: null}}`; a non-key operand is invalid |
| PredicateDsl.NilNotEquals | Sources/ParseConnector/Predicate/ParsePredicateExpression.swift:184-186 | `nil != key` compiles to `{key: {$ne: null}}`; a non-key operand is invalid |
| PredicateDsl.InRange | Sources/ParseConnector/Predicate/ParsePredicateExpression.swift:264-266 | `key =~ a..<b` compiles to `$and` of `{key: {$lte: a}}` and `{key: {$lt: b}}`; a non-key operand is invalid |
| PredicateDsl.InClosedRange | Sources/ParseConnector/Predicate/ParsePredicateExpression.swift:268-270 | `key =~ a...b` compiles to `$and` of `{key: {$lte: a}}` and `{key: {$lte: b}}`; a non-key operand is invalid |
| PredicateDsl.InRangeFrom | Sources/ParseConnector/Predicate/ParsePredicateExpression.swift:272-274 | `key =~ a...` compiles to `{key: {$lte: a}}`; a non-key operand is invalid |
| PredicateDsl.InRangeUpTo | Sources/ParseConnector/Predicate/ParsePredicateExpression.swift:276-278 | `key =~ ..<b` compiles to `{key: {$lt: b}}`; a non-key operand is invalid |
| PredicateDsl.InRangeThrough | Sources/ParseConnector/Predicate/ParsePredicateExpression.swift:280-282 | `key =~ ...b` compiles to `{key: {$lte: b}}`; a non-key operand is invalid |
| PredicateDsl.InRangeAdmits | Sources/ParseConnector/Predicate/ParsePredicateExpression.swift:264-266 | as written, `key =~ a..<b` admits an integer value exactly when it is at most `a` and below `b` |
| PredicateDsl.InClosedRangeAdmits | Sources/ParseConnector/Predicate/ParsePredicateExpression.swift:268-270 | as written, `key =~ a...b` admits an integer value exactly when it is at most `a` and at most `b` |
| PredicateDsl.InRangeFromAdmits | Sources/ParseConnector/Predicate/ParsePredicateExpression.swift:272-274 | as written, `key =~ a...` admits an integer value exactly when it is at most `a` |
| PredicateDsl.InRangeUpToAdmits | Sources/ParseConnector/Predicate/ParsePredicateExpression.swift:276-278 | `key =~ ..<b` admits an integer value exactly when it is below `b`, as the range means |
| PredicateDsl.InRangeThroughAdmits | Sources/ParseConnector/Predicate/ParsePredicateExpression.swift:280-282 | `key =~ ...b` admits an integer value exactly when it is at most `b`, as the range means |
| PredicateDsl.InRangeMissesMember | Sources/ParseConnector/Predicate/ParsePredicateExpression.swift:264-266 | `n =~ 1..<5` does not admit 3, a member of the range |
| PredicateDsl.InRangeFixed | Sources/ParseConnector/Predicate/ParsePredicateExpression.swift:264-266 | with the lower bound as `key >= a`, `key =~ a..<b` compiles to `$and` of `{key: {$gte: a}}` and `{key: {$lt: b}}` |
| PredicateDsl.InClosedRangeFixed | Sources/ParseConnector/Predicate/ParsePredicateExpression.swift:268-270 | with the lower bound as `key >= a`, `key =~ a...b` compiles to `$and` of `{key: {$gte: a}}` and `{key: {$lte: b}}` |
| PredicateDsl.InRangeFromFixed | Sources/ParseConnector/Predicate/ParsePredicateExpression.swift:272-274 | as `key >= a`, `key =~ a...` compiles to `{key: {$gte: a}}` |
| PredicateDsl.InRangeFixedAdmits | Sources/ParseConnector/Predicate/ParsePredicateExpression.swift:264-266 | the corrected `key =~ a..<b` admits an integer value exactly when `a <= value < b` |
| PredicateDsl.InClosedRangeFixedAdmits | Sources/ParseConnector/Predicate/ParsePredicateExpression.swift:268-270 | the corrected `key =~ a...b` admits an integer value exactly when `a <= value <= b` |
| PredicateDsl.InRangeFromFixedAdmits | Sources/ParseConnector/Predicate/ParsePredicateExpression.swift:272-274 | the corrected `key =~ a...` admits an integer value exactly when `a <= value` |
| PredicateDsl.RangeContains | Sources/ParseConnector/Predicate/ParsePredicateExpression.swift:232-234 | `a..<b ~= key` builds the same tree as `key =~ a..<b` |
| PredicateDsl.ClosedRangeContains | Sources/ParseConnector/Predicate/ParsePredicateExpression.swift:236-238 | `a...b ~= key` builds the same tree as `key =~ a...b` |
| PredicateDsl.RangeFromContains | Sources/ParseConnector/Predicate/ParsePredicateExpression.swift:240-242 | `a... ~= key` builds the same tree as `key =~ a...` |
| PredicateDsl.RangeUpToContains | Sources/ParseConnector/Predicate/ParsePredicateExpression.swift:244-246 | `..<b ~= key` builds the same tree as `key =~ ..<b` |
| PredicateDsl.RangeThroughContains | Sources/ParseConnector/Predicate/ParsePredicateExpression.swift:248-250 | `...b ~= key` builds the same tree as `key =~ ...b` |
| PredicateDsl.InCollection | Sources/ParseConnector/Predicate/ParsePredicateExpression.swift:260-262 | `key =~ collection` compiles to `{key: {$in: [..]}}`; a non-key operand is invalid |
| PredicateDsl.CollectionContains | Sources/ParseConnector/Predicate/ParsePredicateExpression.swift:228-230 | `collection ~= x` never compiles: it is `invalidExpression` for every right operand |
| PredicateDsl.MatchesRegex | Sources/ParseConnector/Predicate/ParsePredicateExpression.swift:256-258 | `key =~ regex` compiles to `{key: {$regex: ..}}`; a non-key operand is invalid |
| PredicateDsl.RegexMatches | Sources/ParseConnector/Predicate/ParsePredicateExpression.swift:224-226 | `regex ~= key` builds the same match as `key =~ regex` |
| PredicateBuilder.Subscript | Sources/ParseConnector/Predicate/ParsePredicateBuilder.swift:20-22 | `builder[k]` is the key leaf `k`, whose equality with any value compiles to `{k: {$eq: value}}` |
| PredicateBuilder.Id | Sources/ParseConnector/Predicate/ParsePredicateBuilder.swift:8-10 | `builder.id` is `builder["_id"]`, so `id == oid` compiles to `{_id: {$eq: oid}}` |
| PredicateBuilder.CreatedAt | Sources/ParseConnector/Predicate/ParsePredicateBuilder.swift:12-14 | `builder.createdAt` is `builder["_created_at"]`, so `createdAt > t` compiles to `{_created_at: {$gt: t}}` |
| PredicateBuilder.UpdatedAt | Sources/ParseConnector/Predicate/ParsePredicateBuilder.swift:16-18 | `builder.updatedAt` is `builder["_updated_at"]`, so `updatedAt < t` compiles to `{_updated_at: {$lt: t}}` |
| PointerPredicates.PointerLiteral | Sources/ParseConnector/ParseObject.swift:147-147 | the compared value is the pointer text, or null when the entity has no id |
| PointerPredicates.KeyEqualsObject | Sources/ParseConnector/ParseObject.swift:146-148 | `key == object` compiles to `{_p_key: {$eq: pointer}}` and never fails |
| PointerPredicates.KeyNotEqualsObject | Sources/ParseConnector/ParseObject.swift:150-152 | `key != object` compiles to `{_p_key: {$ne: pointer}}` and never fails |
| PointerPredicates.ObjectEqualsKey | Sources/ParseConnector/ParseObject.swift:154-156 | `object == key` compiles like `key == object` |
| PointerPredicates.ObjectNotEqualsKey | Sources/ParseConnector/ParseObject.swift:158-160 | `object != key` compiles like `key != object` |
| PointerPredicates.PointerFormsCompared | Sources/ParseConnector/ParseObject.swift:146-160 | without an id the pointer form compiles while the entity-operand form fails with `nullObjectId`; with an id both compare the same pointer text |
| Update.SetValue | Sources/ParseConnector/ParseUpdateOperation.swift:25-28 | `value` is the payload of a `.set` and nothing for every other operation |
| Update.BucketOf | Sources/ParseConnector/ParseUpdateOperation.swift:46-57 | a `.set` of null or undefined goes to the unset bucket and any other `.set` to the set bucket; increment, multiply, max, min, add-to-set and push each go to their own bucket, and both pops to the pop bucket, each iff the operation is of that kind |
| Update.EntryOf | Sources/ParseConnector/ParseUpdateOperation.swift:47-56 | an unset stores the empty string, `popFirst` stores -1, `popLast` stores 1, and every other operation its payload |
| Update.Fill | Sources/ParseConnector/ParseUpdateOperation.swift:45-58 | the loop keeps bucket keys unique, drops no key, adds only keys of the dictionary, and adds every key sorted into the bucket |
| Update.FillLookup | Sources/ParseConnector/ParseUpdateOperation.swift:45-58 | after the loop a field holds its operation's entry in the bucket its operation names; no other bucket changes for it |
| Update.FieldPlacement | Sources/ParseConnector/ParseUpdateOperation.swift:45-58 | each field is in exactly one bucket, the one its operation is sorted into, holding that operation's entry |
| Update.UpdateDocument | Sources/ParseConnector/ParseUpdateOperation.swift:60-70 | the update document has unique keys, each one of the nine operator names |
| Update.OperatorLookup | Sources/ParseConnector/ParseUpdateOperation.swift:60-70 | an operator is present iff its bucket is non-empty, and then holds its bucket's content; `$addToSet` holds the push bucket |
| Update.FieldUnderOperator | Sources/ParseConnector/ParseUpdateOperation.swift:45-70 | with unique keys, a field whose operation is not an add-to-set appears, holding its entry, under the operator of the bucket its operation is sorted into |
| Update.EmptyUpdate | Sources/ParseConnector/ParseUpdateOperation.swift:60-70 | the update document is empty iff the dictionary is |
| Update.NullSetUnsets | Sources/ParseConnector/ParseUpdateOperation.swift:47-48 | a `.set` of null or undefined puts `field: ""` under `$unset` and never puts the field under `$set` |
| Update.SetPlacesValue | Sources/ParseConnector/ParseUpdateOperation.swift:45-60 | a `.set` of any value but null or undefined puts `field: value` under `$set` |
| Update.IncrementPlaces | Sources/ParseConnector/ParseUpdateOperation.swift:49-49 | `.increment(v)` on a field puts `field: v` under `$inc` |
| Update.MultiplyPlaces | Sources/ParseConnector/ParseUpdateOperation.swift:50-50 | `.multiply(v)` on a field puts `field: v` under `$mul` |
| Update.MaxPlaces | Sources/ParseConnector/ParseUpdateOperation.swift:51-51 | `.max(v)` on a field puts `field: v` under `$max` |
| Update.MinPlaces | Sources/ParseConnector/ParseUpdateOperation.swift:52-52 | `.min(v)` on a field puts `field: v` under `$min` |
| Update.PushPlaces | Sources/ParseConnector/ParseUpdateOperation.swift:54-54 | `.push(v)` on a field puts `field: v` under `$push` |
| Update.PopEntry | Sources/ParseConnector/ParseUpdateOperation.swift:55-56 | `popFirst` gives `$pop {field: -1}` and `popLast` gives `$pop {field: 1}` |
| Update.AddToSetCarriesPush | Sources/ParseConnector/ParseUpdateOperation.swift:67-67 | `$addToSet` is present iff some field is added to a set, and its content is the push bucket |
| Update.AddToSetPresent | Sources/ParseConnector/ParseUpdateOperation.swift:45-58 | the add-to-set bucket is filled iff some field is added to a set |
| Query.NewQuery | Sources/ParseConnector/ParseQuery.swift:4-6 | a new query has no class, filters, sort, limit or include |
| Query.WithClass | Sources/ParseConnector/ParseQuery.swift:37-39 | only the class changes |
| Query.Filter | Sources/ParseConnector/ParseQuery.swift:53-57 | the predicate is appended after the earlier filters, which keep their order; nothing else changes |
| Query.Sort | Sources/ParseConnector/ParseQuery.swift:62-64 | only the sort changes |
| Query.Limit | Sources/ParseConnector/ParseQuery.swift:89-91 | only the limit changes |
| Query.Include | Sources/ParseConnector/ParseQuery.swift:96-102 | the included set becomes the old set (if any) united with the keys; nothing else changes |
| Query.Projection | Sources/ParseConnector/ParseQuery.swift:147-150 | the projection maps exactly the included keys, each to 1, and exists iff an include set does |
| Query.FilterDocument | Sources/ParseConnector/ParseQuery.swift:107-109 | no filters give the empty document; one filter gives its own compile; results have at most one key; errors are compile errors |
| Query.FoldAnd | Sources/ParseConnector/ParseQuery.swift:108-108 | `reduce` with `&&` is a left fold: one filter is itself, and more are an `and` whose right operand is the last filter; `Query.FoldAndOperands` gives the whole chain |
| Query.FoldAndOperands | Sources/ParseConnector/ParseQuery.swift:108-108 | in the `Predicate.Expr` stand-in, the left fold of non-`and` filters flattens back to exactly the filters, in order |
| Query.FilterFlattens | Sources/ParseConnector/ParseQuery.swift:107-109 | compiled by the `Predicate.Expr` stand-in, two or more non-`and` filters give one `$and` list of their filters in order, and succeed iff each filter does |
| Query.Count | Sources/ParseConnector/ParseQuery.swift:114-128 | no class gives `classNotSet`; a filter error is passed on; it succeeds exactly when there is a class and the filter compiles, and then it is a count on the class with the filter |
| Query.FindOne | Sources/ParseConnector/ParseQuery.swift:133-158 | no class gives `classNotSet`; a filter error is passed on; it succeeds exactly when there is a class and the filter compiles, and then it is a find-one with the query's sort and projection |
| Query.Find | Sources/ParseConnector/ParseQuery.swift:290-319 | no class gives `classNotSet`; a filter error is passed on; it succeeds exactly when there is a class and the filter compiles, and then it is a find with the query's sort, limit and projection |
| Query.FindOneAndDelete | Sources/ParseConnector/ParseQuery.swift:243-268 | no class gives `classNotSet`; a filter error is passed on; it succeeds exactly when there is a class and the filter compiles, and then it is a find-one-and-delete with sort and projection |
| Query.DeleteAll | Sources/ParseConnector/ParseQuery.swift:270-284 | no class gives `classNotSet`; a filter error is passed on; it succeeds exactly when there is a class and the filter compiles, and then it is a delete-many with the filter only |
| Query.PipelinePrefix | Sources/ParseConnector/ParseQuery.swift:340-351 | the prefix is `$match` (only for a non-empty filter), then `$sort` if set, then `$limit` if set, one key per stage |
| Query.Pipeline | Sources/ParseConnector/ParseQuery.swift:334-359 | no class gives `classNotSet`; a filter error is passed on; it succeeds exactly when there is a class and the filter compiles, and then it is an aggregation whose stages are the prefix followed by the caller's stages unchanged |
| Query.AclValue | Sources/ParseConnector/ParseQuery.swift:187-187 | an ACL value exists iff the update holds a `.set` of `_acl`, and it is that value |
| Query.PrepareOps | Sources/ParseConnector/ParseQuery.swift:184-191 | `_updated_at` is set to now; a `.set` of `_acl` also sets `_rperm`/`_wperm` to that ACL's lists; no other field changes |
| Query.SetOnInsert | Sources/ParseConnector/ParseQuery.swift:197-205 | `_id` is the fresh id and `_created_at` is now; without an ACL set, `_acl` is `{}` and `_rperm`/`_wperm` are `[]`; the caller's other fields are kept |
| Query.UpdateRequestDocument | Sources/ParseConnector/ParseQuery.swift:193-208 | `$setOnInsert` is present iff upserting, holding the set-on-insert document; every update operator holds what the prepared operations compile to |
| Query.FindOneAndUpdateWith | Sources/ParseConnector/ParseQuery.swift:218-241 | fails iff no class is set, with `classNotSet`; otherwise a find-one-and-update with the given filter and update and the query's sort and projection |
| Query.FindOneAndUpdate | Sources/ParseConnector/ParseQuery.swift:176-216 | a filter error comes first; then `classNotSet`; it succeeds exactly when the filter compiles and there is a class, and then the request carries the compiled filter and the prepared update document |
| Query.SetAll | Sources/ParseConnector/ParseQuery.swift:160-162 | the plain-value overloads turn each field's value into a `.set` of it, with the same keys |
| Query.NoClassFails | Sources/ParseConnector/ParseQuery.swift:112-359 | every terminal operation fails with `classNotSet` without a class; `findOneAndUpdate` still fails, with the filter's error first |
| Query.UpdateStampsTime | Sources/ParseConnector/ParseQuery.swift:182-185 | the update sent always has `_updated_at: now` under `$set` |
| Query.AclSetsPermLists | Sources/ParseConnector/ParseQuery.swift:187-191 | setting `_acl` puts `_rperm` and `_wperm` under `$set`, as that ACL's read and write principal lists |
| Query.NullAclUnsets | Sources/ParseConnector/ParseQuery.swift:187-193 | once the update is prepared, a `.set` of `_acl` to null still leaves `_acl: ""` under `$unset` |
| Query.NullAclIsPublic | Sources/ParseConnector/ParseQuery.swift:187-191 | setting `_acl` to null unsets `_acl` while `$set` gives `_rperm` and `_wperm` the public list `["*"]` |

## Left out

- Store and asynchronous plumbing are not modelled: the connection, `mongoQuery()`, `execute()`, event loops and futures, cursors, `toArray`/`forEach` streaming and `withTransaction` (Sources/ParseConnector/ParseQuery.swift:26-49). Terminal operations are modelled as the request they send, or the error they throw. A returned document becomes an entity through `ParseObjects.Hydrate`.
- The store's result checks in `save` (Sources/ParseConnector/ParseObject.swift:83, 93) depend on driver result types. Only the object a successful save returns is modelled.
- Clock and identifiers: `Date()` is the parameter `now`. `BSONObjectID()` is the parameter `freshId`. `BSONObjectID(_:)` parsing is the parameter `parseObjectId`.
- `NSRegularExpression` conversion is not modelled: a regular expression is an opaque pattern/options pair.
- `BSONConvertible.toBSON()` is taken to be the identity on BSON literals, so a literal's conversion cannot fail.
- The `Encodable` conformance of `ParseObject` (Sources/ParseConnector/ParseObject.swift:109-136) goes through an external JSON encoder.
- `sort(_:)` with an ordered dictionary of sort orders, `ascending` and `descending` rely on the external `DBMongoSortOrder` encoding. Only `sort(_:)` with a sort document is modelled.
- The `pipeline(_:)` overloads that take a builder closure (Sources/ParseConnector/ParseQuery.swift:394-460) apply the same prefix stages, through the external aggregate expression. Only the prefix is modelled, by `Query.PipelinePrefix`.
- Sources/ParseConnector/PipelineBuilder.swift only appends a fixed literal stage through an external builder.
- The store driver's `MongoPredicateExpression` is not part of this model. Both the query filters and the `_p_` pointer operators build it. They are modelled with `Predicate.Expr` standing in for it. For queries this assumes that the driver's `&&` and `toBSONDocument()` flatten `and` chains as `ParsePredicateExpression` does; Query.FoldAndOperands and Query.FilterFlattens are claims about the stand-in.
- Query.FoldAndOperands, Query.FilterFlattens: only filters that are not themselves `and` expressions are covered. A filter that is an `and` is flattened into the same `$and` list by `Predicate.AndList`, so the compiled list then no longer has one entry per filter.
- PointerPredicates.KeyEqualsObject: an entity without an id yields a comparison with BSON null. This assumes how the external operator treats a nil pointer.
- Swift dictionaries are unordered. The ordered list of update operations stands for one iteration order, and the claims hold for any such order.
- The four public `findOneAndUpdate` overloads (Sources/ParseConnector/ParseQuery.swift:160-174) are not modelled separately; each only forwards to `Query.FindOneAndUpdate`, with `Query.SetAll` for plain values. The two at lines 160-166 pass an empty set-on-insert document and the caller's `upsert` flag. The two at lines 168-174 pass the caller's set-on-insert document and `upsert: true`.
- ParseObjects.Keys: keys are sorted by character code, while Swift compares strings by Unicode canonical ordering. The two agree on keys without combining characters.
- ParseObjects.Set: writing `_id` stops the Swift program. It is modelled as a precondition, not as a behaviour.
- Query.Projection: the projection is a map, because the source builds it from a set and fixes no key order.
- `limit` is an unbounded integer. Swift's `Int` and the `Int64` conversion in the `$limit` stage agree on 64-bit platforms.

## Findings

The range operators build their lower bound as `key <= a` where the range needs `key >= a`. The compiler keeps the operator when it swaps operands, so `b < key` does become `{key: {$lt: b}}`, and the upper bounds are right. The `~=` forms (Sources/ParseConnector/Predicate/ParsePredicateExpression.swift:232-242) build the same trees. `PredicateDsl.Admits` reads a compiled filter as bounds on an integer field.

| source | as written | input that shows it | evidently intended | confidence | as-written member | corrected member |
|---|---|---|---|---|---|---|
| Sources/ParseConnector/Predicate/ParsePredicateExpression.swift:264-266 | `lhs <= rhs.lowerBound && rhs.upperBound < lhs`, compiled to `{$lte: a}` and `{$lt: b}` | `n =~ 1..<5` does not admit 3 | `lhs >= rhs.lowerBound`, compiled to `{$gte: a}` and `{$lt: b}` | high; not executed | PredicateDsl.InRangeAdmits, PredicateDsl.InRangeMissesMember | PredicateDsl.InRangeFixed, PredicateDsl.InRangeFixedAdmits |
| Sources/ParseConnector/Predicate/ParsePredicateExpression.swift:268-270 | `lhs <= rhs.lowerBound && rhs.upperBound <= lhs`, compiled to `{$lte: a}` and `{$lte: b}` | `n =~ 1...5` does not admit 3 | `lhs >= rhs.lowerBound`, compiled to `{$gte: a}` and `{$lte: b}` | high; not executed | PredicateDsl.InClosedRangeAdmits | PredicateDsl.InClosedRangeFixed, PredicateDsl.InClosedRangeFixedAdmits |
| Sources/ParseConnector/Predicate/ParsePredicateExpression.swift:272-274 | `lhs <= rhs.lowerBound`, compiled to `{$lte: a}` | `n =~ 1...` does not admit 3 | `lhs >= rhs.lowerBound`, compiled to `{$gte: a}` | high; not executed | PredicateDsl.InRangeFromAdmits | PredicateDsl.InRangeFromFixed, PredicateDsl.InRangeFromFixedAdmits |
