/**
 * When two leaves can share a path.  The walk does nothing against it: a
 * member name containing '.' or '[' can spell out a path that a nested leaf
 * also gets, and a repeated member name repeats every path below it; then the
 * later put overwrites the earlier one.  When neither happens (`WellNamed`),
 * all leaf paths are distinct and the map has one property per leaf.
 */
module UniquePaths {
  import opened Wrappers
  import opened OrderedMaps
  import opened Decimals
  import opened HjsonValues
  import opened Flattener
  import opened FlattenerProperties

  /** A relative path is empty or begins a step: `.name` or `[index]`. */
  predicate StartsStep(s: string) {
    s == [] || s[0] == '.' || s[0] == '['
  }

  /** The longest prefix of `s` that holds no character of `stop`. */
  function TakeUntil(s: string, stop: set<char>): string {
    if s == [] || s[0] in stop then [] else [s[0]] + TakeUntil(s[1..], stop)
  }

  /** The member names of an object, in order. */
  function Names(ms: seq<Member>): seq<string> {
    seq(|ms|, i requires 0 <= i < |ms| => ms[i].name)
  }

  /** Reading a segment back: a stop-free text followed by a stop (or nothing) is recovered. */
  lemma {:induction false} TakeUntilConcat(a: string, s: string, stop: set<char>)
    requires forall i :: 0 <= i < |a| ==> a[i] !in stop
    requires s == [] || s[0] in stop
    ensures TakeUntil(a + s, stop) == a
  {
    if a == [] {
      assert a + s == s;
    } else {
      assert (a + s)[1..] == a[1..] + s;
      TakeUntilConcat(a[1..], s, stop);
      assert a == [a[0]] + a[1..];
    }
  }

  /** Putting the same prefix in front of distinct present paths keeps them distinct. */
  lemma PrefixedDistinct(p: string, es: seq<Entry>)
    requires forall i :: 0 <= i < |es| ==> es[i].0.Some?
    requires Distinct(EntryKeys(es))
    ensures Distinct(EntryKeys(Prefixed(p, es)))
  {
    var ps := Prefixed(p, es);
    forall i, j | 0 <= i < j < |ps| ensures EntryKeys(ps)[i] != EntryKeys(ps)[j] {
      var s, t := es[i].0.value, es[j].0.value;
      assert EntryKeys(es)[i] != EntryKeys(es)[j];
      assert (p + s)[|p|..] == s && (p + t)[|p|..] == t;
    }
  }

  /** Dropping a common prefix keeps distinct paths distinct. */
  lemma UnprefixedDistinct(p: string, es: seq<Entry>)
    requires Distinct(EntryKeys(Prefixed(p, es)))
    ensures Distinct(EntryKeys(es))
  {
    var ps := Prefixed(p, es);
    forall i, j | 0 <= i < j < |es| ensures EntryKeys(es)[i] != EntryKeys(es)[j] {
      assert EntryKeys(ps)[i] != EntryKeys(ps)[j];
    }
  }

  /**
   * Under the empty root the paths of a well-named tree are distinct, and
   * each is empty (a leaf) or begins a step.
   */
  lemma {:induction false} RelativePathsDistinct(v: Value)
    requires WellNamed(v)
    ensures Distinct(EntryKeys(Leaves(v, Some(""))))
    ensures forall i :: 0 <= i < |Leaves(v, Some(""))| ==>
      Leaves(v, Some(""))[i].0.Some? && StartsStep(Leaves(v, Some(""))[i].0.value)
    decreases v, 0
  {
    match v
    case Obj(ms) => MembersPathsDistinct(ms);
    case Arr(es) => ElementsPathsDistinct(es);
    case _ =>
  }

  /**
   * The paths of member `name` under the empty root: distinct, and each
   * reads back `name` between its leading '.' and the next step.
   */
  lemma MemberPaths(m: Member)
    requires PlainName(m.name) && WellNamed(m.value)
    ensures var B := Leaves(m.value, MemberPath(Some(""), m.name));
      && Distinct(EntryKeys(B))
      && forall j :: 0 <= j < |B| ==>
        && B[j].0.Some? && 0 < |B[j].0.value| && B[j].0.value[0] == '.'
        && TakeUntil(B[j].0.value[1..], {'.', '['}) == m.name
    decreases m
  {
    var step := "." + m.name;
    assert MemberPath(Some(""), m.name) == Some(step) by {
      assert "" + "." + m.name == step;
    }
    RelativePathsDistinct(m.value);
    RootIsPrefix(m.value, step);
    var S := Leaves(m.value, Some(""));
    var B := Leaves(m.value, Some(step));
    forall j | 0 <= j < |B|
      ensures B[j].0.Some? && 0 < |B[j].0.value| && B[j].0.value[0] == '.'
      ensures TakeUntil(B[j].0.value[1..], {'.', '['}) == m.name
    {
      var s := S[j].0.value;
      assert B[j].0.value == step + s;
      assert (step + s)[1..] == m.name + s;
      TakeUntilConcat(m.name, s, {'.', '['});
    }
    PrefixedDistinct(step, S);
  }

  /**
   * The members' paths are distinct; each is `.name…` where `name`, read up
   * to the next step, is one of the members' names.
   */
  lemma {:induction false} MembersPathsDistinct(ms: seq<Member>)
    requires forall i, j :: 0 <= i < j < |ms| ==> ms[i].name != ms[j].name
    requires forall i :: 0 <= i < |ms| ==> PlainName(ms[i].name) && WellNamed(ms[i].value)
    ensures Distinct(EntryKeys(MembersLeaves(ms, Some(""))))
    ensures forall i :: 0 <= i < |MembersLeaves(ms, Some(""))| ==>
      var k := MembersLeaves(ms, Some(""))[i].0;
      k.Some? && 0 < |k.value| && k.value[0] == '.' && TakeUntil(k.value[1..], {'.', '['}) in Names(ms)
    decreases ms
  {
    if ms != [] {
      var n := |ms| - 1;
      var init, last := ms[..n], ms[n];
      MembersPathsDistinct(init);
      MemberPaths(last);
      var A := MembersLeaves(init, Some(""));
      var B := Leaves(last.value, MemberPath(Some(""), last.name));
      assert MembersLeaves(ms, Some("")) == A + B;
      assert Names(ms) == Names(init) + [last.name];
      assert last.name !in Names(init) by {
        forall i | 0 <= i < |init| ensures Names(init)[i] != last.name {
          assert init[i] == ms[i];
        }
      }
      forall a, b | 0 <= a < |A| && 0 <= b < |B| ensures EntryKeys(A)[a] != EntryKeys(B)[b] {
        assert TakeUntil(A[a].0.value[1..], {'.', '['}) in Names(init);
      }
      DistinctAppend(EntryKeys(A), EntryKeys(B));
      EntryKeysAppend(A, B);
    }
  }

  /** The index text of a step `[digits]…` is read back up to the ']'. */
  lemma IndexReadBack(digits: string, s: string)
    requires IsDigits(digits)
    ensures var k := "[" + digits + "]" + s;
      0 < |k| && k[0] == '[' && TakeUntil(k[1..], {']'}) == digits
  {
    var k := "[" + digits + "]" + s;
    assert k[1..] == digits + ("]" + s);
    TakeUntilConcat(digits, "]" + s, {']'});
  }

  /**
   * The paths of the element at position n, under the empty root: distinct,
   * and each reads back n between its '[' and the next ']'.
   */
  lemma ElementPaths(e: Value, n: nat)
    requires WellNamed(e)
    ensures var B := Leaves(e, ElementPath(Some(""), n));
      && Distinct(EntryKeys(B))
      && forall j :: 0 <= j < |B| ==>
        && B[j].0.Some? && 0 < |B[j].0.value| && B[j].0.value[0] == '['
        && TakeUntil(B[j].0.value[1..], {']'}) == Decimal(n)
    decreases e, 1
  {
    var digits := Decimal(n);
    var step := "[" + digits + "]";
    assert ElementPath(Some(""), n) == Some(step) by {
      assert "" + "[" + digits + "]" == step;
    }
    RelativePathsDistinct(e);
    RootIsPrefix(e, step);
    var S := Leaves(e, Some(""));
    var B := Leaves(e, Some(step));
    forall j | 0 <= j < |B|
      ensures B[j].0.Some? && 0 < |B[j].0.value| && B[j].0.value[0] == '['
      ensures TakeUntil(B[j].0.value[1..], {']'}) == digits
    {
      assert B[j].0.value == step + S[j].0.value;
      IndexReadBack(digits, S[j].0.value);
    }
    PrefixedDistinct(step, S);
  }

  /**
   * The elements' paths are distinct; each is `[index]…` with `index` the
   * decimal text of a position of the array.
   */
  lemma {:induction false} ElementsPathsDistinct(es: seq<Value>)
    requires forall i :: 0 <= i < |es| ==> WellNamed(es[i])
    ensures Distinct(EntryKeys(ElementsLeaves(es, Some(""))))
    ensures forall i :: 0 <= i < |ElementsLeaves(es, Some(""))| ==>
      var k := ElementsLeaves(es, Some(""))[i].0;
      && k.Some? && 0 < |k.value| && k.value[0] == '['
      && IsDigits(TakeUntil(k.value[1..], {']'}))
      && ParseDecimal(TakeUntil(k.value[1..], {']'})) < |es|
    decreases es
  {
    if es != [] {
      var n := |es| - 1;
      ElementsPathsDistinct(es[..n]);
      ElementPaths(es[n], n);
      DecimalRoundTrip(n);
      var A := ElementsLeaves(es[..n], Some(""));
      var B := Leaves(es[n], ElementPath(Some(""), n));
      assert ElementsLeaves(es, Some("")) == A + B;
      forall a, b | 0 <= a < |A| && 0 <= b < |B| ensures EntryKeys(A)[a] != EntryKeys(B)[b] {
        assert ParseDecimal(TakeUntil(A[a].0.value[1..], {']'})) < n;
      }
      DistinctAppend(EntryKeys(A), EntryKeys(B));
      EntryKeysAppend(A, B);
    }
  }

  /** Under the empty root an object's paths are its null-root paths with a '.' in front. */
  lemma {:induction false} RootObjectPaths(ms: seq<Member>)
    ensures MembersLeaves(ms, Some("")) == Prefixed(".", MembersLeaves(ms, None))
    decreases ms
  {
    if ms != [] {
      var init, last := ms[..|ms| - 1], ms[|ms| - 1];
      RootObjectPaths(init);
      RootIsPrefix(last.value, "." + last.name);
      RootIsPrefix(last.value, last.name);
      assert "" + "." + last.name == "." + last.name;
      PrefixedTwice(".", last.name, Leaves(last.value, Some("")));
      PrefixedAppend(".", MembersLeaves(init, None), Leaves(last.value, Some(last.name)));
    }
  }

  /** In a well-named document no two leaves share a path, whatever the root. */
  lemma LeafPathsDistinct(v: Value, root: Key)
    requires WellNamed(v)
    ensures Distinct(EntryKeys(Leaves(v, root)))
  {
    RelativePathsDistinct(v);
    match root
    case Some(r) =>
      RootIsPrefix(v, r);
      PrefixedDistinct(r, Leaves(v, Some("")));
    case None =>
      match v
      case Obj(ms) =>
        RootObjectPaths(ms);
        UnprefixedDistinct(".", MembersLeaves(ms, None));
      case Arr(es) =>
        RootArrayPathsStartWithNull(es);
        PrefixedDistinct("null", Leaves(v, Some("")));
      case _ =>
  }

  /**
   * A well-named document flattens to one property per leaf: the keys are
   * the leaf paths in document order and each holds its own leaf's text.
   */
  lemma WellNamedFlatten(v: Value)
    requires WellNamed(v)
    ensures |Flatten(v).keys| == LeafCount(v)
    ensures Flatten(v).keys == EntryKeys(Leaves(v, None))
    ensures forall i :: 0 <= i < LeafCount(v) ==>
      Leaves(v, None)[i].0 in Flatten(v).vals && Flatten(v).vals[Leaves(v, None)[i].0] == Render(PreOrderLeaves(v)[i])
  {
    var L := Leaves(v, None);
    LeafPathsDistinct(v, None);
    FlattenKeys(v);
    FirstOccurrencesLength(EntryKeys(L), {});
    forall i | 0 <= i < LeafCount(v)
      ensures L[i].0 in Flatten(v).vals && Flatten(v).vals[L[i].0] == Render(PreOrderLeaves(v)[i])
    {
      forall j | i < j < LeafCount(v) ensures L[j].0 != L[i].0 {
        assert EntryKeys(L)[i] != EntryKeys(L)[j];
      }
      FlattenValue(v, i);
    }
  }
}
