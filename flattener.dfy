/**
 * `buildFlattenedMap` of HjsonPropertySourceLoader: a depth-first walk of the
 * value tree that puts one `path -> text` property per leaf into an
 * insertion-ordered map.
 *
 * `Leaves` is the specification: the sequence of `put` calls the walk makes,
 * in order.  `BuildFlattenedMap` is the walk itself, over a LinkedHashMap.
 */
module Flattener {
  import opened Wrappers
  import opened OrderedMaps
  import opened LinkedHashMaps
  import opened Decimals
  import opened HjsonValues

  /** A property name; `None` is Java's `null`, the path of the root. */
  type Key = Option<string>

  /** One `put(path, text)`. */
  type Entry = (Key, string)

  /** What Java's string concatenation makes of a possibly-null String. */
  function JavaText(k: Key): string {
    match k
    case None => "null"
    case Some(s) => s
  }

  /** The path of member `name`: the name alone under the root, `root.name` elsewhere. */
  function MemberPath(root: Key, name: string): Key {
    if root.None? then Some(name) else Some(root.value + "." + name)
  }

  /** The path of element `index`: `root[index]`, with a null root written "null". */
  function ElementPath(root: Key, index: nat): Key {
    Some(JavaText(root) + "[" + Decimal(index) + "]")
  }

  /** The puts made when the walk reaches `v` with path `root`, in order. */
  function Leaves(v: Value, root: Key): (puts: seq<Entry>)
    ensures |puts| == LeafCount(v)
  {
    match v
    case Obj(ms) => MembersLeaves(ms, root)
    case Arr(es) => ElementsLeaves(es, root)
    case Str(s) => [(root, s)]
    case Null => [(root, "")]
    case Other(t) => [(root, t)]
  }

  /** The puts for the members of an object, member by member. */
  function MembersLeaves(ms: seq<Member>, root: Key): (puts: seq<Entry>)
    ensures |puts| == |MembersPreOrderLeaves(ms)|
  {
    if ms == [] then []
    else
      var last := ms[|ms| - 1];
      MembersLeaves(ms[..|ms| - 1], root) + Leaves(last.value, MemberPath(root, last.name))
  }

  /** The puts for the elements of an array, the element at position i under index i. */
  function ElementsLeaves(es: seq<Value>, root: Key): (puts: seq<Entry>)
    ensures |puts| == |ElementsPreOrderLeaves(es)|
  {
    if es == [] then []
    else ElementsLeaves(es[..|es| - 1], root) + Leaves(es[|es| - 1], ElementPath(root, |es| - 1))
  }

  /** The map `load` builds from a document: the walk from a null root into a new map. */
  function Flatten(v: Value): OrderedMap<Key, string> {
    PutAll(Empty(), Leaves(v, None))
  }

  /** `buildFlattenedMap(result, hjson, root)`. */
  method BuildFlattenedMap(result: LinkedHashMap<Key, string>, hjson: Value, root: Key)
    requires result.Valid()
    modifies result
    ensures result.Valid()
    ensures result.Model() == PutAll(old(result.Model()), Leaves(hjson, root))
    decreases hjson
  {
    ghost var before := result.Model();
    match hjson
    case Obj(ms) =>
      var i := 0;
      while i < |ms|
        invariant 0 <= i <= |ms|
        invariant result.Valid()
        invariant result.Model() == PutAll(before, MembersLeaves(ms[..i], root))
      {
        var name := ms[i].name;
        BuildFlattenedMap(result, ms[i].value, if root == None then Some(name) else Some(root.value + "." + name));
        MembersStep(before, ms, i, root);
        i := i + 1;
      }
      assert ms[..i] == ms;
    case Arr(es) =>
      var index := 0;
      while index < |es|
        invariant 0 <= index <= |es|
        invariant result.Valid()
        invariant result.Model() == PutAll(before, ElementsLeaves(es[..index], root))
      {
        var path := ElementPath(root, index);
        BuildFlattenedMap(result, es[index], path);
        ElementsStep(before, es, index, root);
        index := index + 1;
      }
      assert es[..index] == es;
    case Str(s) =>
      result.Put(root, s);
      PutAllSingle(before, root, s);
    case Null =>
      result.Put(root, "");
      PutAllSingle(before, root, "");
    case Other(t) =>
      result.Put(root, t);
      PutAllSingle(before, root, t);
  }

  lemma PutAllSingle(m: OrderedMap<Key, string>, k: Key, v: string)
    ensures PutAll(m, [(k, v)]) == Put(m, k, v)
  {
  }

  /** Walking member i after members 0..i-1 is walking members 0..i. */
  lemma MembersStep(m: OrderedMap<Key, string>, ms: seq<Member>, i: nat, root: Key)
    requires i < |ms|
    ensures PutAll(m, MembersLeaves(ms[..i + 1], root))
         == PutAll(PutAll(m, MembersLeaves(ms[..i], root)), Leaves(ms[i].value, MemberPath(root, ms[i].name)))
  {
    assert ms[..i + 1][..i] == ms[..i];
    PutAllAppend(m, MembersLeaves(ms[..i], root), Leaves(ms[i].value, MemberPath(root, ms[i].name)));
  }

  /** Walking element i after elements 0..i-1 is walking elements 0..i. */
  lemma ElementsStep(m: OrderedMap<Key, string>, es: seq<Value>, i: nat, root: Key)
    requires i < |es|
    ensures PutAll(m, ElementsLeaves(es[..i + 1], root))
         == PutAll(PutAll(m, ElementsLeaves(es[..i], root)), Leaves(es[i], ElementPath(root, i)))
  {
    assert es[..i + 1][..i] == es[..i];
    PutAllAppend(m, ElementsLeaves(es[..i], root), Leaves(es[i], ElementPath(root, i)));
  }
}
