/** Ordered association lists keyed by strings.

    This is the shape of a BSON document (an ordered mapping whose keys are unique) and
    of the Swift `[String: V]` dictionaries the connector builds its update documents
    from. Writing a key that is present replaces its value in place; writing a new key
    appends it; removing a key deletes its entry and keeps the others in order. */
module Assoc {
  import opened Wrappers

  /** The keys of `d`, in order. */
  function Keys<V>(d: seq<(string, V)>): (ks: seq<string>)
    ensures |ks| == |d|
    ensures forall i :: 0 <= i < |d| ==> ks[i] == d[i].0
  {
    if |d| == 0 then [] else [d[0].0] + Keys(d[1..])
  }

  /** No key occurs twice: the invariant of a BSON document and of a dictionary. */
  predicate Unique<V>(d: seq<(string, V)>) {
    forall i, j :: 0 <= i < j < |d| ==> d[i].0 != d[j].0
  }

  /** `d[k]`: the value stored under `k`, if any. */
  function Get<V>(d: seq<(string, V)>, k: string): (r: Option<V>)
    ensures r.Some? <==> k in Keys(d)
  {
    if |d| == 0 then None
    else if d[0].0 == k then Some(d[0].1)
    else
      Get(d[1..], k)
  }

  /** In a document without duplicate keys, an entry is exactly what `Get` finds. */
  lemma {:induction false} GetEntry<V>(d: seq<(string, V)>, i: int)
    requires Unique(d)
    requires 0 <= i < |d|
    ensures Get(d, d[i].0) == Some(d[i].1)
  {
    if i > 0 {
      GetEntry(d[1..], i - 1);
    }
  }

  /** Looking into a document that starts with the entry `x`. */
  lemma Cons<V>(x: (string, V), rest: seq<(string, V)>)
    ensures Keys([x] + rest) == [x.0] + Keys(rest)
    ensures forall j :: Get([x] + rest, j) == if x.0 == j then Some(x.1) else Get(rest, j)
  {
    assert ([x] + rest)[1..] == rest;
  }

  /** `d[k] = v`: replace the value in place when `k` is present, else append. */
  function Set<V>(d: seq<(string, V)>, k: string, v: V): (r: seq<(string, V)>)
    ensures Get(r, k) == Some(v)
    ensures forall j :: j != k ==> Get(r, j) == Get(d, j)
    ensures k in Keys(d) ==> Keys(r) == Keys(d)
    ensures k !in Keys(d) ==> Keys(r) == Keys(d) + [k]
  {
    if |d| == 0 then [(k, v)]
    else if d[0].0 == k then
      SetHere(d, k, v);
      [(k, v)] + d[1..]
    else
      var rest := Set(d[1..], k, v);
      SetFurther(d, k, v, rest);
      SetFurtherKeys(d, k, rest);
      [d[0]] + rest
  }

  /** `Set` when the key heads the document: the entry is replaced in place. */
  lemma SetHere<V>(d: seq<(string, V)>, k: string, v: V)
    requires |d| > 0 && d[0].0 == k
    ensures Get([(k, v)] + d[1..], k) == Some(v)
    ensures forall j :: j != k ==> Get([(k, v)] + d[1..], j) == Get(d, j)
    ensures Keys([(k, v)] + d[1..]) == Keys(d)
  {
    Cons(d[0], d[1..]);
    Cons((k, v), d[1..]);
    assert [d[0]] + d[1..] == d;
  }

  /** `Set` past the head: the head is kept in front of the rest written. */
  lemma SetFurther<V>(d: seq<(string, V)>, k: string, v: V, rest: seq<(string, V)>)
    requires |d| > 0 && d[0].0 != k
    requires Get(rest, k) == Some(v)
    requires forall j :: j != k ==> Get(rest, j) == Get(d[1..], j)
    ensures Get([d[0]] + rest, k) == Some(v)
    ensures forall j :: j != k ==> Get([d[0]] + rest, j) == Get(d, j)
  {
    Cons(d[0], d[1..]);
    Cons(d[0], rest);
    assert [d[0]] + d[1..] == d;
  }

  /** The keys after `Set` past the head. */
  lemma SetFurtherKeys<V>(d: seq<(string, V)>, k: string, rest: seq<(string, V)>)
    requires |d| > 0 && d[0].0 != k
    requires k in Keys(d[1..]) ==> Keys(rest) == Keys(d[1..])
    requires k !in Keys(d[1..]) ==> Keys(rest) == Keys(d[1..]) + [k]
    ensures k in Keys(d) ==> Keys([d[0]] + rest) == Keys(d)
    ensures k !in Keys(d) ==> Keys([d[0]] + rest) == Keys(d) + [k]
  {
    Cons(d[0], d[1..]);
    Cons(d[0], rest);
    assert [d[0]] + d[1..] == d;
    var head, tail := d[0].0, Keys(d[1..]);
    assert k in Keys(d) <==> k in tail;
    if k !in tail {
      assert [head] + (tail + [k]) == ([head] + tail) + [k];
    }
  }

  /** Writing a key adds it to the keys, and no other. */
  lemma SetKeys<V>(d: seq<(string, V)>, k: string, v: V)
    ensures forall x :: x in Keys(Set(d, k, v)) <==> x in Keys(d) || x == k
  {
  }

  /** Writing a key keeps the keys unique. */
  lemma SetUnique<V>(d: seq<(string, V)>, k: string, v: V)
    ensures Unique(d) ==> Unique(Set(d, k, v))
  {
    if Unique(d) {
      var r := Set(d, k, v);
      assert Keys(r) == Keys(d) || Keys(r) == Keys(d) + [k];
      forall i, j | 0 <= i < j < |r|
        ensures r[i].0 != r[j].0
      {
        assert Keys(r)[i] == r[i].0 && Keys(r)[j] == r[j].0;
        if j == |d| {
          assert Keys(r)[j] == k;
        } else {
          assert Keys(d)[i] == d[i].0 && Keys(d)[j] == d[j].0;
        }
      }
    }
  }

  /** `d[k] = nil`: delete every entry under `k`, keeping the others in order. */
  function Remove<V>(d: seq<(string, V)>, k: string): (r: seq<(string, V)>)
    ensures Get(r, k) == None
    ensures forall j :: j != k ==> Get(r, j) == Get(d, j)
    ensures forall x :: x in Keys(r) <==> x in Keys(d) && x != k
    ensures k !in Keys(d) ==> r == d
  {
    if |d| == 0 then []
    else
      var rest := Remove(d[1..], k);
      if d[0].0 == k then rest
      else
        assert ([d[0]] + rest)[1..] == rest;
        assert d == [d[0]] + d[1..];
        [d[0]] + rest
  }

  /** The keys of a concatenation are the keys of its parts. */
  lemma {:induction false} KeysAppend<V>(a: seq<(string, V)>, b: seq<(string, V)>)
    ensures Keys(a + b) == Keys(a) + Keys(b)
  {
    if |a| == 0 {
      assert a + b == b;
    } else {
      assert (a + b)[1..] == a[1..] + b;
      KeysAppend(a[1..], b);
    }
  }

  /** Looking a key up in a concatenation finds it in the first part that has it. */
  lemma {:induction false} GetAppend<V>(a: seq<(string, V)>, b: seq<(string, V)>, k: string)
    ensures Get(a + b, k) == if k in Keys(a) then Get(a, k) else Get(b, k)
  {
    if |a| == 0 {
      assert a + b == b;
    } else {
      assert (a + b)[1..] == a[1..] + b;
      GetAppend(a[1..], b, k);
      assert Keys(a) == [a[0].0] + Keys(a[1..]);
    }
  }

  /** Two documents with unique keys and no key in common concatenate into one. */
  lemma UniqueAppend<V>(a: seq<(string, V)>, b: seq<(string, V)>)
    requires Unique(a) && Unique(b)
    requires forall k :: k in Keys(a) ==> k !in Keys(b)
    ensures Unique(a + b)
  {
    forall i, j | 0 <= i < j < |a + b|
      ensures (a + b)[i].0 != (a + b)[j].0
    {
      if j < |a| {
        assert (a + b)[i] == a[i] && (a + b)[j] == a[j];
      } else if i >= |a| {
        assert (a + b)[i] == b[i - |a|] && (a + b)[j] == b[j - |a|];
      } else {
        assert (a + b)[i] == a[i] && (a + b)[j] == b[j - |a|];
        assert Keys(a)[i] == a[i].0;
        assert a[i].0 in Keys(a);
        assert Keys(b)[j - |a|] == b[j - |a|].0;
        assert b[j - |a|].0 in Keys(b);
      }
    }
  }
}
