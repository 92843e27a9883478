/** Access-control lists (Sources/ParseConnector/ParseACL.swift).

    An ACL is a BSON document mapping a principal ("*" for the public, otherwise a user
    id) to a permission sub-document `{r: true, w: true}` holding only the flags that
    are granted. */
module Acl {
  import opened Wrappers
  import opened Bson
  import Assoc

  /** The principal that stands for everyone. */
  const Public: string := "*"

  datatype Perm = Perm(read: bool, write: bool)

  datatype ParseACL = ParseACL(acl: Doc)

  /** `ParseACL()`: public read and write. */
  function Default(): (a: ParseACL)
    ensures Assoc.Unique(a.acl)
    ensures Assoc.Keys(a.acl) == [Public]
    ensures GetPerm(a, Public) == Perm(true, true)
  {
    ParseACL([(Public, Document([("r", Bool(true)), ("w", Bool(true))]))])
  }

  /** `ParseACL(acl: BSON)`: the document itself, or the public default for any other
      value. */
  function FromBson(value: BSON): (a: ParseACL)
    ensures value.Document? ==> a.acl == value.fields
    ensures !value.Document? ==> a == Default()
  {
    ParseACL(DocumentValue(value).GetOr(Default().acl))
  }

  /** Whether a permission entry holds the boolean `true` under `flag`. */
  predicate Grants(entry: BSON, flag: string) {
    entry.Document? && Assoc.Get(entry.fields, flag) == Some(Bool(true))
  }

  /** `xs` is `ys` with some elements dropped, the rest kept in order. */
  predicate Subsequence(xs: seq<string>, ys: seq<string>)
    decreases |ys|
  {
    if |xs| == 0 then true
    else if |ys| == 0 then false
    else (xs[0] == ys[0] && Subsequence(xs[1..], ys[1..])) || Subsequence(xs, ys[1..])
  }

  /** The principals whose entry grants `flag`, in the order of the document. */
  function Principals(d: Doc, flag: string): (r: seq<string>)
    ensures Subsequence(r, Assoc.Keys(d))
    ensures forall i :: 0 <= i < |d| && Grants(d[i].1, flag) ==> d[i].0 in r
    ensures forall x :: x in r ==> exists i :: 0 <= i < |d| && d[i].0 == x && Grants(d[i].1, flag)
  {
    if |d| == 0 then []
    else
      var rest := Principals(d[1..], flag);
      assert forall i :: 1 <= i < |d| ==> d[i] == d[1..][i - 1];
      if Grants(d[0].1, flag) then [d[0].0] + rest else rest
  }

  /** `acl.rperm`. */
  function RPerm(a: ParseACL): (r: seq<string>)
    ensures Subsequence(r, Assoc.Keys(a.acl))
    ensures forall i :: 0 <= i < |a.acl| && Grants(a.acl[i].1, "r") ==> a.acl[i].0 in r
    ensures forall x :: x in r ==> exists i :: 0 <= i < |a.acl| && a.acl[i].0 == x && Grants(a.acl[i].1, "r")
  {
    Principals(a.acl, "r")
  }

  /** `acl.wperm`. */
  function WPerm(a: ParseACL): (r: seq<string>)
    ensures Subsequence(r, Assoc.Keys(a.acl))
    ensures forall i :: 0 <= i < |a.acl| && Grants(a.acl[i].1, "w") ==> a.acl[i].0 in r
    ensures forall x :: x in r ==> exists i :: 0 <= i < |a.acl| && a.acl[i].0 == x && Grants(a.acl[i].1, "w")
  {
    Principals(a.acl, "w")
  }

  /** `Perm(BSONDocument)`: a flag is set only by the boolean `true`. */
  function PermFromDoc(d: Doc): (p: Perm)
    ensures p.read <==> Assoc.Get(d, "r") == Some(Bool(true))
    ensures p.write <==> Assoc.Get(d, "w") == Some(Bool(true))
  {
    Perm(Assoc.Get(d, "r") == Some(Bool(true)), Assoc.Get(d, "w") == Some(Bool(true)))
  }

  /** `Perm(BSON)`: a value that is not a document grants nothing. */
  function PermFromBson(value: BSON): (p: Perm)
    ensures p.read <==> Grants(value, "r")
    ensures p.write <==> Grants(value, "w")
    ensures !value.Document? ==> p == Perm(false, false)
  {
    PermFromDoc(DocumentValue(value).GetOr([]))
  }

  /** `Perm.toBSON()`: a document holding `true` under each granted flag only. */
  function PermToBson(p: Perm): (value: BSON)
    ensures value.Document? && Assoc.Unique(value.fields)
    ensures forall i :: 0 <= i < |value.fields| ==>
              value.fields[i].0 in {"r", "w"} && value.fields[i].1 == Bool(true)
    ensures "r" in Assoc.Keys(value.fields) <==> p.read
    ensures "w" in Assoc.Keys(value.fields) <==> p.write
    ensures PermFromBson(value) == p
  {
    if p.read && p.write then Document([("r", Bool(true)), ("w", Bool(true))])
    else if p.read then Document([("r", Bool(true))])
    else if p.write then Document([("w", Bool(true))])
    else Document([])
  }

  /** `acl[userId]` (get): the decoded entry, or no permission when absent. */
  function GetPerm(a: ParseACL, principal: string): (p: Perm)
    ensures principal !in Assoc.Keys(a.acl) ==> p == Perm(false, false)
    ensures Assoc.Get(a.acl, principal).Some? ==> p == PermFromBson(Assoc.Get(a.acl, principal).value)
  {
    PermFromBson(Assoc.Get(a.acl, principal).GetOr(Document([])))
  }

  /** `acl[userId] = perm`: store the encoding, or drop the entry when the permission
      grants nothing. */
  function SetPerm(a: ParseACL, principal: string, p: Perm): (r: ParseACL)
    ensures GetPerm(r, principal) == p
    ensures p.read || p.write ==> Assoc.Get(r.acl, principal) == Some(PermToBson(p))
    ensures !(p.read || p.write) ==> principal !in Assoc.Keys(r.acl)
    ensures forall other :: other != principal ==> Assoc.Get(r.acl, other) == Assoc.Get(a.acl, other)
    ensures (p.read || p.write) && principal in Assoc.Keys(a.acl) ==> Assoc.Keys(r.acl) == Assoc.Keys(a.acl)
    ensures (p.read || p.write) && principal !in Assoc.Keys(a.acl) ==>
              Assoc.Keys(r.acl) == Assoc.Keys(a.acl) + [principal]
    ensures !(p.read || p.write) && principal !in Assoc.Keys(a.acl) ==> r == a
  {
    if p.read || p.write then
      ParseACL(Assoc.Set(a.acl, principal, PermToBson(p)))
    else
      ParseACL(Assoc.Remove(a.acl, principal))
  }

  /** `acl.public` (get). */
  function GetPublic(a: ParseACL): (p: Perm)
    ensures p == GetPerm(a, Public)
  {
    PermFromBson(Assoc.Get(a.acl, "*").GetOr(Document([])))
  }

  /** `acl.public = perm`. */
  function SetPublic(a: ParseACL, p: Perm): (r: ParseACL)
    ensures r == SetPerm(a, Public, p)
  {
    if p.read || p.write then ParseACL(Assoc.Set(a.acl, "*", PermToBson(p)))
    else ParseACL(Assoc.Remove(a.acl, "*"))
  }

  /** `acl.toBSON()`. */
  function ToBson(a: ParseACL): (value: BSON)
    ensures FromBson(value) == a
  {
    Document(a.acl)
  }

  /** In a well-formed ACL, `rperm` lists exactly the principals the getter reports as
      readers, and `wperm` exactly the writers, each in document order. */
  lemma {:induction false} PermListsAgreeWithGetter(a: ParseACL, principal: string)
    requires Assoc.Unique(a.acl)
    ensures principal in RPerm(a) <==> GetPerm(a, principal).read
    ensures principal in WPerm(a) <==> GetPerm(a, principal).write
    ensures Subsequence(RPerm(a), Assoc.Keys(a.acl)) && Subsequence(WPerm(a), Assoc.Keys(a.acl))
  {
    Listed(a.acl, "r", principal);
    Listed(a.acl, "w", principal);
  }

  /** With unique keys, a principal is listed for `flag` exactly when its own entry
      grants `flag`. */
  lemma Listed(d: Doc, flag: string, principal: string)
    requires Assoc.Unique(d)
    ensures principal in Principals(d, flag) <==>
            Assoc.Get(d, principal).Some? && Grants(Assoc.Get(d, principal).value, flag)
  {
    if principal in Assoc.Keys(d) {
      var i :| 0 <= i < |d| && Assoc.Keys(d)[i] == principal;
      Assoc.GetEntry(d, i);
    }
    if principal in Principals(d, flag) {
      var i :| 0 <= i < |d| && d[i].0 == principal && Grants(d[i].1, flag);
      Assoc.GetEntry(d, i);
    }
  }

  /** The default ACL, and any non-document value read as one, list only the public
      principal in both `rperm` and `wperm`. */
  lemma DefaultPermLists(value: BSON)
    requires !value.Document?
    ensures RPerm(FromBson(value)) == [Public]
    ensures WPerm(FromBson(value)) == [Public]
  {
  }
}
