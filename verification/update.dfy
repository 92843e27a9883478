/** The update-operation compiler (Sources/ParseConnector/ParseUpdateOperation.swift).

    A dictionary of per-field operations is sorted into nine buckets, one per store
    update operator, and each non-empty bucket becomes one operator entry of the update
    document. The dictionary is an ordered association list whose keys are unique; the
    order of its entries stands for the dictionary's iteration order, which the source
    leaves unspecified. The `$addToSet` entry is reproduced as written: it is emitted
    when the add-to-set bucket is non-empty, but it carries the push bucket. */
module Update {
  import opened Wrappers
  import opened Bson
  import Assoc

  datatype UpdateOp =
    | Set(operand: BSON)
    | Increment(operand: BSON)
    | Multiply(operand: BSON)
    | Max(operand: BSON)
    | Min(operand: BSON)
    | AddToSet(operand: BSON)
    | Push(operand: BSON)
    | PopFirst
    | PopLast

  type Ops = seq<(string, UpdateOp)>

  /** `operation.value`: the written value of a `.set`, and nothing for any other
      operation. */
  function SetValue(op: UpdateOp): (v: Option<BSON>)
    ensures v.Some? <==> op.Set?
    ensures v.Some? ==> op == Set(v.value)
  {
    if op.Set? then Some(op.operand) else None
  }

  /** The nine buckets, in the order their operators are emitted. */
  datatype Bucket = SetBucket | UnsetBucket | IncBucket | MulBucket | MaxBucket | MinBucket
                  | AddToSetBucket | PushBucket | PopBucket

  /** The update operator a bucket is emitted under. */
  function OperatorOf(b: Bucket): (name: string)
    ensures 4 <= |name| <= 9 && name[0] == '$'
  {
    match b
    case SetBucket => "$set"
    case UnsetBucket => "$unset"
    case IncBucket => "$inc"
    case MulBucket => "$mul"
    case MaxBucket => "$max"
    case MinBucket => "$min"
    case AddToSetBucket => "$addToSet"
    case PushBucket => "$push"
    case PopBucket => "$pop"
  }

  /** The bucket whose content is emitted under `OperatorOf(b)`: itself, except that
      the `$addToSet` entry takes the push bucket. */
  function ContentOf(b: Bucket): Bucket {
    if b == AddToSetBucket then PushBucket else b
  }

  /** The bucket an operation is sorted into. Writing null or undefined is an unset. */
  function BucketOf(op: UpdateOp): (b: Bucket)
    ensures op.Set? ==> (b == UnsetBucket <==> op.operand == Null || op.operand == Undefined)
    ensures op.Set? ==> (b == SetBucket <==> op.operand != Null && op.operand != Undefined)
    ensures !op.Set? ==> b != SetBucket && b != UnsetBucket
    ensures b == IncBucket <==> op.Increment?
    ensures b == MulBucket <==> op.Multiply?
    ensures b == MaxBucket <==> op.Max?
    ensures b == MinBucket <==> op.Min?
    ensures b == AddToSetBucket <==> op.AddToSet?
    ensures b == PushBucket <==> op.Push?
    ensures b == PopBucket <==> op.PopFirst? || op.PopLast?
  {
    match op
    case Set(Null) => UnsetBucket
    case Set(Undefined) => UnsetBucket
    case Set(_) => SetBucket
    case Increment(_) => IncBucket
    case Multiply(_) => MulBucket
    case Max(_) => MaxBucket
    case Min(_) => MinBucket
    case AddToSet(_) => AddToSetBucket
    case Push(_) => PushBucket
    case PopFirst => PopBucket
    case PopLast => PopBucket
  }

  /** The value an operation leaves in its bucket: the operand, the empty string for an
      unset, and -1 or 1 for popping the first or the last element. */
  function EntryOf(op: UpdateOp): (v: BSON)
    ensures BucketOf(op) == UnsetBucket ==> v == Str("")
    ensures op.PopFirst? ==> v == Int(-1)
    ensures op.PopLast? ==> v == Int(1)
    ensures BucketOf(op) != UnsetBucket && BucketOf(op) != PopBucket ==> v == op.operand
  {
    match op
    case Set(Null) => Str("")
    case Set(Undefined) => Str("")
    case PopFirst => Int(-1)
    case PopLast => Int(1)
    case _ => op.operand
  }

  /** The loop over the dictionary, restricted to one bucket: every operation sorted
      into `b` is written into `acc`, in order. */
  function Fill(acc: Doc, ops: Ops, b: Bucket): (r: Doc)
    ensures Assoc.Unique(acc) ==> Assoc.Unique(r)
    ensures forall k :: k in Assoc.Keys(r) ==> k in Assoc.Keys(acc) || k in Assoc.Keys(ops)
    ensures forall k :: k in Assoc.Keys(acc) ==> k in Assoc.Keys(r)
    ensures forall i :: 0 <= i < |ops| && BucketOf(ops[i].1) == b ==> ops[i].0 in Assoc.Keys(r)
    decreases |ops|
  {
    if |ops| == 0 then acc
    else
      var next := if BucketOf(ops[0].1) == b then Assoc.Set(acc, ops[0].0, EntryOf(ops[0].1)) else acc;
      var r := Fill(next, ops[1..], b);
      FillStep(acc, ops, b, next, r);
      r
  }

  /** One turn of the loop: what holds of the rest of the loop holds of the whole. */
  lemma FillStep(acc: Doc, ops: Ops, b: Bucket, next: Doc, r: Doc)
    requires |ops| > 0
    requires next == if BucketOf(ops[0].1) == b then Assoc.Set(acc, ops[0].0, EntryOf(ops[0].1)) else acc
    requires Assoc.Unique(next) ==> Assoc.Unique(r)
    requires forall k :: k in Assoc.Keys(r) ==> k in Assoc.Keys(next) || k in Assoc.Keys(ops[1..])
    requires forall k :: k in Assoc.Keys(next) ==> k in Assoc.Keys(r)
    requires forall i :: 0 <= i < |ops[1..]| && BucketOf(ops[1..][i].1) == b ==> ops[1..][i].0 in Assoc.Keys(r)
    ensures Assoc.Unique(acc) ==> Assoc.Unique(r)
    ensures forall k :: k in Assoc.Keys(r) ==> k in Assoc.Keys(acc) || k in Assoc.Keys(ops)
    ensures forall k :: k in Assoc.Keys(acc) ==> k in Assoc.Keys(r)
    ensures forall i :: 0 <= i < |ops| && BucketOf(ops[i].1) == b ==> ops[i].0 in Assoc.Keys(r)
  {
    Assoc.SetUnique(acc, ops[0].0, EntryOf(ops[0].1));
    assert Assoc.Keys(ops) == [ops[0].0] + Assoc.Keys(ops[1..]);
    Assoc.SetKeys(acc, ops[0].0, EntryOf(ops[0].1));
    forall i | 0 <= i < |ops| && BucketOf(ops[i].1) == b
      ensures ops[i].0 in Assoc.Keys(r)
    {
      if i == 0 {
        assert ops[0].0 in Assoc.Keys(next);
      } else {
        assert ops[i] == ops[1..][i - 1];
      }
    }
  }

  /** The content of bucket `b` after the loop. */
  function BucketContent(ops: Ops, b: Bucket): (d: Doc)
    ensures Assoc.Unique(d)
  {
    Fill([], ops, b)
  }

  /** The buckets in the order their operators are emitted. */
  const Emission: seq<Bucket> :=
    [SetBucket, UnsetBucket, IncBucket, MulBucket, MaxBucket, MinBucket, AddToSetBucket, PushBucket, PopBucket]

  predicate DistinctBuckets(bs: seq<Bucket>) {
    forall i, j :: 0 <= i < j < |bs| ==> bs[i] != bs[j]
  }

  /** A bucket's position in the emission order. */
  function Rank(b: Bucket): nat {
    match b
    case SetBucket => 0
    case UnsetBucket => 1
    case IncBucket => 2
    case MulBucket => 3
    case MaxBucket => 4
    case MinBucket => 5
    case AddToSetBucket => 6
    case PushBucket => 7
    case PopBucket => 8
  }

  /** The emission order lists every bucket once. */
  lemma EmissionOrder()
    ensures DistinctBuckets(Emission)
    ensures forall b :: b in Emission
  {
    assert forall i :: 0 <= i < |Emission| ==> Rank(Emission[i]) == i;
    forall b
      ensures b in Emission
    {
      assert Emission[Rank(b)] == b;
    }
  }

  /** Each bucket has its own operator. */
  lemma OperatorInjective(b1: Bucket, b2: Bucket)
    ensures OperatorOf(b1) == OperatorOf(b2) ==> b1 == b2
  {
  }

  /** `if !bucket.isEmpty { update[operator] = BSON(content) }` for one bucket. */
  function OperatorEntry(ops: Ops, b: Bucket): Doc {
    if |BucketContent(ops, b)| == 0 then []
    else [(OperatorOf(b), Document(BucketContent(ops, ContentOf(b))))]
  }

  /** The operator entries of the buckets `bs`, in order. The operators are distinct,
      so each assignment into the fresh update document appends. */
  function Entries(ops: Ops, bs: seq<Bucket>): (update: Doc)
    requires DistinctBuckets(bs)
    ensures Assoc.Unique(update)
    ensures forall k :: k in Assoc.Keys(update) ==> exists i :: 0 <= i < |bs| && OperatorOf(bs[i]) == k
  {
    if |bs| == 0 then []
    else
      var first := OperatorEntry(ops, bs[0]);
      var rest := Entries(ops, bs[1..]);
      assert forall k :: k in Assoc.Keys(first) ==> k !in Assoc.Keys(rest) by {
        forall k | k in Assoc.Keys(first) && k in Assoc.Keys(rest)
          ensures false
        {
          var i :| 0 <= i < |bs[1..]| && OperatorOf(bs[1..][i]) == k;
          OperatorInjective(bs[0], bs[i + 1]);
        }
      }
      Assoc.UniqueAppend(first, rest);
      Assoc.KeysAppend(first, rest);
      first + rest
  }

  /** `toBSONDocument()`: the update document of a dictionary of operations. */
  function UpdateDocument(ops: Ops): (update: Doc)
    ensures Assoc.Unique(update)
    ensures forall k :: k in Assoc.Keys(update) ==> exists b :: OperatorOf(b) == k
  {
    EmissionOrder();
    var update := Entries(ops, Emission);
    assert forall k :: k in Assoc.Keys(update) ==> exists b :: OperatorOf(b) == k by {
      forall k | k in Assoc.Keys(update)
        ensures exists b :: OperatorOf(b) == k
      {
        var i :| 0 <= i < |Emission| && OperatorOf(Emission[i]) == k;
      }
    }
    update
  }

  /** Where the loop puts a field: with unique keys, a field is in bucket `b` exactly
      when its operation is sorted into `b`, and then holds that operation's entry;
      a field the dictionary does not mention is in no bucket. */
  lemma {:induction false} FillLookup(acc: Doc, ops: Ops, b: Bucket, k: string)
    requires Assoc.Unique(ops)
    ensures Assoc.Get(Fill(acc, ops, b), k) ==
            match Assoc.Get(ops, k)
            case Some(op) => if BucketOf(op) == b then Some(EntryOf(op)) else Assoc.Get(acc, k)
            case None => Assoc.Get(acc, k)
    decreases |ops|
  {
    if |ops| > 0 {
      var next := if BucketOf(ops[0].1) == b then Assoc.Set(acc, ops[0].0, EntryOf(ops[0].1)) else acc;
      assert Assoc.Unique(ops[1..]);
      FillLookup(next, ops[1..], b, k);
      if ops[0].0 == k {
        assert Assoc.Get(ops[1..], k).None? by {
          forall i | 0 <= i < |ops[1..]|
            ensures Assoc.Keys(ops[1..])[i] != k
          {
            assert ops[1..][i] == ops[i + 1];
          }
        }
      }
    }
  }

  /** Each field of the dictionary lands in exactly one bucket, the one its operation
      names, holding that operation's entry. */
  lemma FieldPlacement(ops: Ops, k: string, b: Bucket)
    requires Assoc.Unique(ops)
    ensures k in Assoc.Keys(BucketContent(ops, b)) <==>
            k in Assoc.Keys(ops) && BucketOf(Assoc.Get(ops, k).value) == b
    ensures k in Assoc.Keys(BucketContent(ops, b)) ==>
            Assoc.Get(BucketContent(ops, b), k) == Some(EntryOf(Assoc.Get(ops, k).value))
  {
    FillLookup([], ops, b, k);
  }

  /** Looking an operator up among the entries of `bs`. */
  lemma {:induction false} EntriesLookup(ops: Ops, bs: seq<Bucket>, b: Bucket)
    requires DistinctBuckets(bs)
    ensures Assoc.Get(Entries(ops, bs), OperatorOf(b)) ==
            if b !in bs || |BucketContent(ops, b)| == 0 then None
            else Some(Document(BucketContent(ops, ContentOf(b))))
  {
    if |bs| > 0 {
      var first := OperatorEntry(ops, bs[0]);
      var rest := Entries(ops, bs[1..]);
      assert Entries(ops, bs) == first + rest;
      Assoc.GetAppend(first, rest, OperatorOf(b));
      EntriesLookup(ops, bs[1..], b);
      OperatorInjective(b, bs[0]);
      assert b in bs <==> b == bs[0] || b in bs[1..];
      if b == bs[0] {
        assert b !in bs[1..] by {
          forall i | 0 <= i < |bs[1..]|
            ensures bs[1..][i] != b
          {
            assert bs[1..][i] == bs[i + 1];
          }
        }
      }
    }
  }

  /** What the update document holds under each operator: nothing when the bucket is
      empty, else the bucket's content, except that `$addToSet` carries the push
      bucket. */
  lemma OperatorLookup(ops: Ops, b: Bucket)
    ensures Assoc.Get(UpdateDocument(ops), OperatorOf(b)) ==
            if |BucketContent(ops, b)| == 0 then None
            else Some(Document(BucketContent(ops, ContentOf(b))))
  {
    EmissionOrder();
    EntriesLookup(ops, Emission, b);
  }

  /** The update document is empty exactly when the dictionary is. */
  lemma EmptyUpdate(ops: Ops)
    ensures UpdateDocument(ops) == [] <==> |ops| == 0
  {
    if |ops| > 0 {
      var b := BucketOf(ops[0].1);
      assert ops[0].0 in Assoc.Keys(BucketContent(ops, b));
      OperatorLookup(ops, b);
    }
  }

  /** A field of the dictionary appears, with its entry, in the document under the
      operator of its bucket (for every bucket whose content is its own). */
  lemma FieldUnderOperator(ops: Ops, k: string, b: Bucket)
    requires Assoc.Unique(ops)
    requires k in Assoc.Keys(ops) && BucketOf(Assoc.Get(ops, k).value) == b && b != AddToSetBucket
    ensures Assoc.Get(UpdateDocument(ops), OperatorOf(b)).Some?
    ensures Assoc.Get(UpdateDocument(ops), OperatorOf(b)).value.Document?
    ensures Assoc.Get(Assoc.Get(UpdateDocument(ops), OperatorOf(b)).value.fields, k) == Some(EntryOf(Assoc.Get(ops, k).value))
  {
    FieldPlacement(ops, k, b);
    assert |BucketContent(ops, b)| > 0;
    assert ContentOf(b) == b;
    OperatorLookup(ops, b);
  }

  /** Setting a field to anything but null or undefined puts the value under `$set`. */
  lemma SetPlacesValue(ops: Ops, k: string, v: BSON)
    requires Assoc.Unique(ops)
    requires Assoc.Get(ops, k) == Some(Set(v)) && v != Null && v != Undefined
    ensures Assoc.Get(UpdateDocument(ops), "$set").Some?
    ensures Assoc.Get(UpdateDocument(ops), "$set").value.Document?
    ensures Assoc.Get(Assoc.Get(UpdateDocument(ops), "$set").value.fields, k) == Some(v)
  {
    assert BucketOf(Set(v)) == SetBucket && EntryOf(Set(v)) == v;
    FieldUnderOperator(ops, k, SetBucket);
    assert OperatorOf(SetBucket) == "$set";
  }

  /** Incrementing: the field appears under `$inc` with its operand. */
  lemma IncrementPlaces(ops: Ops, k: string, v: BSON)
    requires Assoc.Unique(ops)
    requires Assoc.Get(ops, k) == Some(Increment(v))
    ensures Assoc.Get(UpdateDocument(ops), "$inc").Some?
    ensures Assoc.Get(UpdateDocument(ops), "$inc").value.Document?
    ensures Assoc.Get(Assoc.Get(UpdateDocument(ops), "$inc").value.fields, k) == Some(v)
  {
    assert BucketOf(Increment(v)) == IncBucket && EntryOf(Increment(v)) == v;
    assert OperatorOf(IncBucket) == "$inc";
    FieldUnderOperator(ops, k, IncBucket);
  }

  /** Multiplying: the field appears under `$mul` with its operand. */
  lemma MultiplyPlaces(ops: Ops, k: string, v: BSON)
    requires Assoc.Unique(ops)
    requires Assoc.Get(ops, k) == Some(Multiply(v))
    ensures Assoc.Get(UpdateDocument(ops), "$mul").Some?
    ensures Assoc.Get(UpdateDocument(ops), "$mul").value.Document?
    ensures Assoc.Get(Assoc.Get(UpdateDocument(ops), "$mul").value.fields, k) == Some(v)
  {
    assert BucketOf(Multiply(v)) == MulBucket && EntryOf(Multiply(v)) == v;
    assert OperatorOf(MulBucket) == "$mul";
    FieldUnderOperator(ops, k, MulBucket);
  }

  /** Raising to a maximum: the field appears under `$max` with its operand. */
  lemma MaxPlaces(ops: Ops, k: string, v: BSON)
    requires Assoc.Unique(ops)
    requires Assoc.Get(ops, k) == Some(Max(v))
    ensures Assoc.Get(UpdateDocument(ops), "$max").Some?
    ensures Assoc.Get(UpdateDocument(ops), "$max").value.Document?
    ensures Assoc.Get(Assoc.Get(UpdateDocument(ops), "$max").value.fields, k) == Some(v)
  {
    assert BucketOf(Max(v)) == MaxBucket && EntryOf(Max(v)) == v;
    assert OperatorOf(MaxBucket) == "$max";
    FieldUnderOperator(ops, k, MaxBucket);
  }

  /** Lowering to a minimum: the field appears under `$min` with its operand. */
  lemma MinPlaces(ops: Ops, k: string, v: BSON)
    requires Assoc.Unique(ops)
    requires Assoc.Get(ops, k) == Some(Min(v))
    ensures Assoc.Get(UpdateDocument(ops), "$min").Some?
    ensures Assoc.Get(UpdateDocument(ops), "$min").value.Document?
    ensures Assoc.Get(Assoc.Get(UpdateDocument(ops), "$min").value.fields, k) == Some(v)
  {
    assert BucketOf(Min(v)) == MinBucket && EntryOf(Min(v)) == v;
    assert OperatorOf(MinBucket) == "$min";
    FieldUnderOperator(ops, k, MinBucket);
  }

  /** Pushing: the field appears under `$push` with its operand. */
  lemma PushPlaces(ops: Ops, k: string, v: BSON)
    requires Assoc.Unique(ops)
    requires Assoc.Get(ops, k) == Some(Push(v))
    ensures Assoc.Get(UpdateDocument(ops), "$push").Some?
    ensures Assoc.Get(UpdateDocument(ops), "$push").value.Document?
    ensures Assoc.Get(Assoc.Get(UpdateDocument(ops), "$push").value.fields, k) == Some(v)
  {
    assert BucketOf(Push(v)) == PushBucket && EntryOf(Push(v)) == v;
    assert OperatorOf(PushBucket) == "$push";
    FieldUnderOperator(ops, k, PushBucket);
  }

  /** Writing null (or undefined) to a field unsets it: the field appears under
      `$unset` with an empty string, and not under `$set`. */
  lemma NullSetUnsets(ops: Ops, k: string)
    requires Assoc.Unique(ops)
    requires Assoc.Get(ops, k) == Some(Set(Null)) || Assoc.Get(ops, k) == Some(Set(Undefined))
    ensures Assoc.Get(UpdateDocument(ops), "$unset").Some?
    ensures Assoc.Get(UpdateDocument(ops), "$unset").value.Document?
    ensures Assoc.Get(Assoc.Get(UpdateDocument(ops), "$unset").value.fields, k) == Some(Str(""))
    ensures Assoc.Get(UpdateDocument(ops), "$set").Some? ==>
              Assoc.Get(UpdateDocument(ops), "$set").value.Document? &&
              k !in Assoc.Keys(Assoc.Get(UpdateDocument(ops), "$set").value.fields)
  {
    assert BucketOf(Assoc.Get(ops, k).value) == UnsetBucket;
    FieldUnderOperator(ops, k, UnsetBucket);
    assert OperatorOf(UnsetBucket) == "$unset";
    FieldPlacement(ops, k, SetBucket);
    OperatorLookup(ops, SetBucket);
    assert OperatorOf(SetBucket) == "$set" && ContentOf(SetBucket) == SetBucket;
  }

  /** Popping: the field appears under `$pop` with -1 for the first element and 1 for
      the last. */
  lemma PopEntry(ops: Ops, k: string)
    requires Assoc.Unique(ops)
    requires Assoc.Get(ops, k) == Some(PopFirst) || Assoc.Get(ops, k) == Some(PopLast)
    ensures Assoc.Get(UpdateDocument(ops), "$pop").Some?
    ensures Assoc.Get(UpdateDocument(ops), "$pop").value.Document?
    ensures Assoc.Get(Assoc.Get(UpdateDocument(ops), "$pop").value.fields, k) ==
            Some(if Assoc.Get(ops, k) == Some(PopFirst) then Int(-1) else Int(1))
  {
    assert BucketOf(PopFirst) == PopBucket && EntryOf(PopFirst) == Int(-1);
    assert BucketOf(PopLast) == PopBucket && EntryOf(PopLast) == Int(1);
    assert OperatorOf(PopBucket) == "$pop";
    FieldUnderOperator(ops, k, PopBucket);
  }

  /** The `$addToSet` entry exists exactly when some field is added to a set, and it
      carries the push bucket: the fields to add are never emitted, and a pushed field
      appears under both `$addToSet` and `$push`. */
  lemma AddToSetCarriesPush(ops: Ops)
    ensures "$addToSet" in Assoc.Keys(UpdateDocument(ops)) <==>
            exists i :: 0 <= i < |ops| && ops[i].1.AddToSet?
    ensures "$addToSet" in Assoc.Keys(UpdateDocument(ops)) ==>
            Assoc.Get(UpdateDocument(ops), "$addToSet") == Some(Document(BucketContent(ops, PushBucket)))
  {
    OperatorLookup(ops, AddToSetBucket);
    assert OperatorOf(AddToSetBucket) == "$addToSet" && ContentOf(AddToSetBucket) == PushBucket;
    AddToSetPresent(ops);
  }

  /** The add-to-set bucket is filled exactly when some field is added to a set. */
  lemma AddToSetPresent(ops: Ops)
    ensures |BucketContent(ops, AddToSetBucket)| > 0 <==> exists i :: 0 <= i < |ops| && ops[i].1.AddToSet?
  {
    var bucket := BucketContent(ops, AddToSetBucket);
    if i :| 0 <= i < |ops| && ops[i].1.AddToSet? {
      assert BucketOf(ops[i].1) == AddToSetBucket;
      assert ops[i].0 in Assoc.Keys(bucket);
    }
    if |bucket| > 0 {
      var k := bucket[0].0;
      assert Assoc.Keys(bucket)[0] == k;
      AddToSetWitness(ops, [], k);
    }
  }

  /** A field in the add-to-set bucket came from an add-to-set operation. */
  lemma {:induction false} AddToSetWitness(ops: Ops, acc: Doc, k: string)
    requires |acc| == 0
    requires k in Assoc.Keys(Fill(acc, ops, AddToSetBucket))
    ensures exists i :: 0 <= i < |ops| && ops[i].1.AddToSet?
    decreases |ops|
  {
    if |ops| > 0 && !ops[0].1.AddToSet? {
      AddToSetWitness(ops[1..], acc, k);
      var i :| 0 <= i < |ops[1..]| && ops[1..][i].1.AddToSet?;
      assert ops[i + 1].1.AddToSet?;
    }
  }
}
