/**
 * The parsed Hjson value tree (org.hjson.JsonValue) that the flattener walks.
 * Numbers, booleans and every other scalar kind are carried with the text
 * their `toString()` gives, which is all the flattener ever uses of them.
 */
module HjsonValues {

  datatype Value =
    | Obj(members: seq<Member>)
    | Arr(elements: seq<Value>)
    | Str(text: string)
    | Null
    | Other(rendered: string)

  /** A member of an object; names may repeat, and the order is the document's. */
  datatype Member = Member(name: string, value: Value)

  predicate IsLeaf(v: Value) {
    v.Str? || v.Null? || v.Other?
  }

  /** The text a property holds for a leaf: the raw string, "" for null, the rendering otherwise. */
  function Render(v: Value): string
    requires IsLeaf(v)
  {
    match v
    case Str(s) => s
    case Null => ""
    case Other(t) => t
  }

  /** The leaves of a tree, depth-first, in document order. */
  function PreOrderLeaves(v: Value): (ls: seq<Value>)
    ensures forall i :: 0 <= i < |ls| ==> IsLeaf(ls[i])
  {
    match v
    case Obj(ms) => MembersPreOrderLeaves(ms)
    case Arr(es) => ElementsPreOrderLeaves(es)
    case _ => [v]
  }

  function MembersPreOrderLeaves(ms: seq<Member>): (ls: seq<Value>)
    ensures forall i :: 0 <= i < |ls| ==> IsLeaf(ls[i])
  {
    if ms == [] then []
    else MembersPreOrderLeaves(ms[..|ms| - 1]) + PreOrderLeaves(ms[|ms| - 1].value)
  }

  function ElementsPreOrderLeaves(es: seq<Value>): (ls: seq<Value>)
    ensures forall i :: 0 <= i < |ls| ==> IsLeaf(ls[i])
  {
    if es == [] then []
    else ElementsPreOrderLeaves(es[..|es| - 1]) + PreOrderLeaves(es[|es| - 1])
  }

  function LeafCount(v: Value): nat {
    |PreOrderLeaves(v)|
  }

  /** A member name that can neither be mistaken for a dotted path nor for an index. */
  predicate PlainName(name: string) {
    forall i :: 0 <= i < |name| ==> name[i] != '.' && name[i] != '['
  }

  /** Every object's member names are distinct and plain, all the way down. */
  ghost predicate WellNamed(v: Value) {
    match v
    case Obj(ms) =>
      && (forall i, j :: 0 <= i < j < |ms| ==> ms[i].name != ms[j].name)
      && (forall i :: 0 <= i < |ms| ==> PlainName(ms[i].name) && WellNamed(ms[i].value))
    case Arr(es) => forall i :: 0 <= i < |es| ==> WellNamed(es[i])
    case _ => true
  }
}
