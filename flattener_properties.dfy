/**
 * What the walk of `buildFlattenedMap` guarantees: one put per leaf carrying
 * the leaf's text, member and element blocks in document order, the paths it
 * builds, and what the ordered map looks like once every put is done.
 */
module FlattenerProperties {
  import opened Wrappers
  import opened OrderedMaps
  import opened Decimals
  import opened HjsonValues
  import opened Flattener

  // ----- one put per leaf, holding the leaf's text -----

  /**
   * The i-th put of the walk stores the text of the i-th leaf in depth-first
   * document order: a string's raw content, "" for null and the rendering of
   * any other scalar.
   */
  lemma {:induction false} LeavesAreLeafTexts(v: Value, root: Key)
    ensures forall i :: 0 <= i < |Leaves(v, root)| ==> Leaves(v, root)[i].1 == Render(PreOrderLeaves(v)[i])
    decreases v
  {
    match v
    case Obj(ms) => MembersAreLeafTexts(ms, root);
    case Arr(es) => ElementsAreLeafTexts(es, root);
    case _ =>
  }

  lemma {:induction false} MembersAreLeafTexts(ms: seq<Member>, root: Key)
    ensures forall i :: 0 <= i < |MembersLeaves(ms, root)| ==>
      MembersLeaves(ms, root)[i].1 == Render(MembersPreOrderLeaves(ms)[i])
    decreases ms
  {
    if ms != [] {
      var last := ms[|ms| - 1];
      MembersAreLeafTexts(ms[..|ms| - 1], root);
      LeavesAreLeafTexts(last.value, MemberPath(root, last.name));
    }
  }

  lemma {:induction false} ElementsAreLeafTexts(es: seq<Value>, root: Key)
    ensures forall i :: 0 <= i < |ElementsLeaves(es, root)| ==>
      ElementsLeaves(es, root)[i].1 == Render(ElementsPreOrderLeaves(es)[i])
    decreases es
  {
    if es != [] {
      ElementsAreLeafTexts(es[..|es| - 1], root);
      LeavesAreLeafTexts(es[|es| - 1], ElementPath(root, |es| - 1));
    }
  }

  // ----- members and elements in document order -----

  lemma {:induction false} MembersPrefix(ms: seq<Member>, k: nat, root: Key)
    requires k <= |ms|
    ensures MembersLeaves(ms[..k], root) <= MembersLeaves(ms, root)
    decreases |ms|
  {
    if k < |ms| {
      MembersPrefix(ms[..|ms| - 1], k, root);
      assert ms[..|ms| - 1][..k] == ms[..k];
    } else {
      assert ms[..k] == ms;
    }
  }

  lemma {:induction false} ElementsPrefix(es: seq<Value>, k: nat, root: Key)
    requires k <= |es|
    ensures ElementsLeaves(es[..k], root) <= ElementsLeaves(es, root)
    decreases |es|
  {
    if k < |es| {
      ElementsPrefix(es[..|es| - 1], k, root);
      assert es[..|es| - 1][..k] == es[..k];
    } else {
      assert es[..k] == es;
    }
  }

  /**
   * Member i is walked under path `name` (null root) or `root.name`, and its
   * puts come right after the puts of the leaves of members 0..i-1.
   */
  lemma MemberBlock(ms: seq<Member>, root: Key, i: nat)
    requires i < |ms|
    ensures var start := LeafCount(Obj(ms[..i]));
            var block := Leaves(ms[i].value, MemberPath(root, ms[i].name));
            && start + |block| <= |Leaves(Obj(ms), root)|
            && Leaves(Obj(ms), root)[start..start + |block|] == block
  {
    MembersPrefix(ms, i + 1, root);
    assert ms[..i + 1][..i] == ms[..i];
  }

  /**
   * Element i is walked under path `root[i]`, and its puts come right after
   * the puts of the leaves of elements 0..i-1.
   */
  lemma ElementBlock(es: seq<Value>, root: Key, i: nat)
    requires i < |es|
    ensures var start := LeafCount(Arr(es[..i]));
            var block := Leaves(es[i], ElementPath(root, i));
            && start + |block| <= |Leaves(Arr(es), root)|
            && Leaves(Arr(es), root)[start..start + |block|] == block
  {
    ElementsPrefix(es, i + 1, root);
    assert es[..i + 1][..i] == es[..i];
  }

  // ----- the paths -----

  /** The text Java builds for a path after `prefix + …`: a present path gets the prefix in front. */
  function Prefixed(prefix: string, es: seq<Entry>): (r: seq<Entry>)
    ensures |r| == |es|
  {
    seq(|es|, i requires 0 <= i < |es| =>
      (match es[i].0 case None => None case Some(s) => Some(prefix + s), es[i].1))
  }

  lemma PrefixedAppend(prefix: string, a: seq<Entry>, b: seq<Entry>)
    ensures Prefixed(prefix, a + b) == Prefixed(prefix, a) + Prefixed(prefix, b)
  {
  }

  lemma PrefixedTwice(p: string, q: string, es: seq<Entry>)
    ensures Prefixed(p, Prefixed(q, es)) == Prefixed(p + q, es)
  {
    forall i | 0 <= i < |es| ensures Prefixed(p, Prefixed(q, es))[i] == Prefixed(p + q, es)[i] {
      if es[i].0.Some? {
        assert p + (q + es[i].0.value) == p + q + es[i].0.value;
      }
    }
  }

  /**
   * Every path under a present root `r` is `r` followed by the path the same
   * subtree gets under the empty root: the root only ever becomes a prefix.
   */
  lemma {:induction false} RootIsPrefix(v: Value, r: string)
    ensures Leaves(v, Some(r)) == Prefixed(r, Leaves(v, Some("")))
    decreases v
  {
    match v
    case Obj(ms) => MembersRootIsPrefix(ms, r);
    case Arr(es) => ElementsRootIsPrefix(es, r);
    case _ => assert r + "" == r;
  }

  lemma {:induction false} MembersRootIsPrefix(ms: seq<Member>, r: string)
    ensures MembersLeaves(ms, Some(r)) == Prefixed(r, MembersLeaves(ms, Some("")))
    decreases ms
  {
    if ms != [] {
      var init, last := ms[..|ms| - 1], ms[|ms| - 1];
      var step := "." + last.name;
      MembersRootIsPrefix(init, r);
      RootIsPrefix(last.value, r + step);
      RootIsPrefix(last.value, step);
      assert "" + "." + last.name == step;
      assert r + "." + last.name == r + step;
      PrefixedTwice(r, step, Leaves(last.value, Some("")));
      PrefixedAppend(r, MembersLeaves(init, Some("")), Leaves(last.value, Some(step)));
    }
  }

  lemma {:induction false} ElementsRootIsPrefix(es: seq<Value>, r: string)
    ensures ElementsLeaves(es, Some(r)) == Prefixed(r, ElementsLeaves(es, Some("")))
    decreases es
  {
    if es != [] {
      var init, last := es[..|es| - 1], es[|es| - 1];
      var step := "[" + Decimal(|es| - 1) + "]";
      ElementsRootIsPrefix(init, r);
      RootIsPrefix(last, r + step);
      RootIsPrefix(last, step);
      assert "" + "[" + Decimal(|es| - 1) + "]" == step;
      assert r + "[" + Decimal(|es| - 1) + "]" == r + step;
      PrefixedTwice(r, step, Leaves(last, Some("")));
      PrefixedAppend(r, ElementsLeaves(init, Some("")), Leaves(last, Some(step)));
    }
  }

  /**
   * An array at the root is walked as if its root were the text "null":
   * Java's string concatenation renders the null root, so its element paths
   * are `null[0]`, `null[1]`, ….
   */
  lemma {:induction false} RootArrayPathsStartWithNull(es: seq<Value>)
    ensures Leaves(Arr(es), None) == Leaves(Arr(es), Some("null"))
    ensures Leaves(Arr(es), None) == Prefixed("null", Leaves(Arr(es), Some("")))
    decreases es
  {
    if es != [] {
      RootArrayPathsStartWithNull(es[..|es| - 1]);
      assert ElementPath(None, |es| - 1) == ElementPath(Some("null"), |es| - 1);
    }
    RootIsPrefix(Arr(es), "null");
  }

  /**
   * Only a leaf at the root is put with a null path: every member and element
   * gets a present path, so nothing below the root can.
   */
  lemma NullPathOnlyForRootLeaf(v: Value, root: Key)
    ensures None in EntryKeys(Leaves(v, root)) <==> root == None && IsLeaf(v)
  {
    var L := Leaves(v, root);
    if !IsLeaf(v) {
      forall i | 0 <= i < |L| ensures L[i].0.Some? {
        match v
        case Obj(ms) => MembersPathsPresent(ms, root);
        case Arr(es) => ElementsPathsPresent(es, root);
      }
    } else if root.Some? {
      assert EntryKeys(L) == [root];
    } else {
      assert EntryKeys(L)[0] == None;
    }
  }

  lemma {:induction false} PathsPresent(v: Value, r: string)
    ensures forall i :: 0 <= i < |Leaves(v, Some(r))| ==> Leaves(v, Some(r))[i].0.Some?
    decreases v
  {
    match v
    case Obj(ms) => MembersPathsPresent(ms, Some(r));
    case Arr(es) => ElementsPathsPresent(es, Some(r));
    case _ =>
  }

  lemma {:induction false} MembersPathsPresent(ms: seq<Member>, root: Key)
    ensures forall i :: 0 <= i < |MembersLeaves(ms, root)| ==> MembersLeaves(ms, root)[i].0.Some?
    decreases ms
  {
    if ms != [] {
      var last := ms[|ms| - 1];
      MembersPathsPresent(ms[..|ms| - 1], root);
      PathsPresent(last.value, MemberPath(root, last.name).value);
    }
  }

  lemma {:induction false} ElementsPathsPresent(es: seq<Value>, root: Key)
    ensures forall i :: 0 <= i < |ElementsLeaves(es, root)| ==> ElementsLeaves(es, root)[i].0.Some?
    decreases es
  {
    if es != [] {
      ElementsPathsPresent(es[..|es| - 1], root);
      PathsPresent(es[|es| - 1], ElementPath(root, |es| - 1).value);
    }
  }

  /**
   * A walk only adds or overwrites: the keys already in the map keep their
   * order at the front, and a key no leaf reaches keeps its value.
   */
  lemma WalkOnlyAddsOrOverwrites(m: OrderedMap<Key, string>, v: Value, root: Key, k: Key)
    ensures m.keys <= PutAll(m, Leaves(v, root)).keys
    ensures k !in EntryKeys(Leaves(v, root)) ==>
      && (k in PutAll(m, Leaves(v, root)).vals <==> k in m.vals)
      && (k in m.vals ==> PutAll(m, Leaves(v, root)).vals[k] == m.vals[k])
  {
    var L := Leaves(v, root);
    PutAllKeys(m, L);
    if k !in EntryKeys(L) {
      forall j | 0 <= j < |L| ensures L[j].0 != k {
        assert EntryKeys(L)[j] == L[j].0;
      }
      PutAllUntouched(m, L, k);
    }
  }

  // ----- the flattened map -----

  /**
   * The map's keys are the leaf paths in depth-first order of first
   * occurrence; there are never more keys than leaves, and exactly as many
   * when no two leaves share a path.
   */
  lemma FlattenKeys(v: Value)
    ensures Valid(Flatten(v))
    ensures Flatten(v).keys == FirstOccurrences(EntryKeys(Leaves(v, None)), {})
    ensures |Flatten(v).keys| <= LeafCount(v)
    ensures |Flatten(v).keys| == LeafCount(v) <==> Distinct(EntryKeys(Leaves(v, None)))
  {
    var L := Leaves(v, None);
    PutAllValid(Empty(), L);
    PutAllKeys(Empty(), L);
    assert Empty<Key, string>().vals.Keys == {};
    FirstOccurrencesFacts(EntryKeys(L), {});
    FirstOccurrencesLength(EntryKeys(L), {});
  }

  /**
   * A path is a key exactly when some leaf has it, and the text stored under
   * it is that of the last leaf with the path: a repeated path overwrites.
   */
  lemma FlattenValue(v: Value, i: nat)
    requires i < LeafCount(v)
    requires forall j :: i < j < LeafCount(v) ==> Leaves(v, None)[j].0 != Leaves(v, None)[i].0
    ensures Leaves(v, None)[i].0 in Flatten(v).vals
    ensures Flatten(v).vals[Leaves(v, None)[i].0] == Render(PreOrderLeaves(v)[i])
  {
    LeavesAreLeafTexts(v, None);
    PutAllLastWins(Empty(), Leaves(v, None), i);
  }

  lemma FlattenDomain(v: Value, k: Key)
    ensures k in Flatten(v).vals <==> k in EntryKeys(Leaves(v, None))
  {
    PutAllDomain(Empty(), Leaves(v, None), k);
  }

  /** The map is empty exactly when the document has no leaf. */
  lemma FlattenEmpty(v: Value)
    ensures Flatten(v).keys == [] <==> LeafCount(v) == 0
  {
    FlattenKeys(v);
    var ks := EntryKeys(Leaves(v, None));
    FirstOccurrencesFacts(ks, {});
    if ks != [] {
      assert ks[0] in FirstOccurrences(ks, {});
    }
  }

  /** A leaf at the root is a single property with the null key. */
  lemma RootLeaf(v: Value)
    requires IsLeaf(v)
    ensures Flatten(v).keys == [None]
    ensures Flatten(v).vals == map[None := Render(v)]
  {
    var e: Entry := (None, Render(v));
    assert Leaves(v, None) == [e];
    assert |[e][1..]| == 0;
    assert Flatten(v) == PutAll(Put(Empty(), None, Render(v)), []);
  }
}
