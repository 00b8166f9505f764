/**
 * Small documents and what they flatten to, chosen to pin down the corner
 * cases: the null root of a top-level array, paths that collide, the empty
 * document.
 */
module Documents {
  import opened Wrappers
  import opened OrderedMaps
  import opened Decimals
  import opened HjsonValues
  import opened Flattener
  import opened FlattenerProperties

  lemma OneMember(m: Member, root: Key)
    ensures Leaves(Obj([m]), root) == Leaves(m.value, MemberPath(root, m.name))
  {
  }

  lemma TwoMembers(m0: Member, m1: Member, root: Key)
    ensures Leaves(Obj([m0, m1]), root)
         == Leaves(m0.value, MemberPath(root, m0.name)) + Leaves(m1.value, MemberPath(root, m1.name))
  {
    assert [m0, m1][..1] == [m0];
    OneMember(m0, root);
  }

  lemma TwoElements(e0: Value, e1: Value, root: Key)
    ensures Leaves(Arr([e0, e1]), root) == Leaves(e0, ElementPath(root, 0)) + Leaves(e1, ElementPath(root, 1))
  {
    var es := [e0, e1];
    assert es[..1] == [e0] && |es| - 1 == 1 && es[1] == e1;
    assert ElementsLeaves(es, root) == ElementsLeaves([e0], root) + Leaves(e1, ElementPath(root, 1));
    assert [e0][..0] == [];
    assert ElementsLeaves([e0], root) == Leaves(e0, ElementPath(root, 0));
  }

  lemma PutTwo(m: OrderedMap<Key, string>, e0: Entry, e1: Entry)
    ensures PutAll(m, [e0, e1]) == Put(Put(m, e0.0, e0.1), e1.0, e1.1)
  {
    var m1 := Put(m, e0.0, e0.1);
    assert [e0, e1][1..] == [e1];
    assert PutAll(m, [e0, e1]) == PutAll(m1, [e1]);
    assert [e1][1..] == [];
    assert PutAll(m1, [e1]) == PutAll(Put(m1, e1.0, e1.1), []);
  }

  /** `{a: x, b: {c: y}}` gives `a=x`, `b.c=y`. */
  lemma NestedObject()
    ensures Flatten(Obj([Member("a", Str("x")), Member("b", Obj([Member("c", Str("y"))]))]))
         == OrderedMap([Some("a"), Some("b.c")], map[Some("a") := "x", Some("b.c") := "y"])
  {
    TwoMembers(Member("a", Str("x")), Member("b", Obj([Member("c", Str("y"))])), None);
    OneMember(Member("c", Str("y")), Some("b"));
    assert "b" + "." + "c" == "b.c";
    PutTwo(Empty(), (Some("a"), "x"), (Some("b.c"), "y"));
  }

  /** `{deep: {x: {y: [1, 2]}}}` gives `deep.x.y[0]=1`, `deep.x.y[1]=2`. */
  lemma NestedArray()
    ensures Flatten(Obj([Member("deep", Obj([Member("x", Obj([Member("y", Arr([Other("1"), Other("2")]))]))]))]))
         == OrderedMap([Some("deep.x.y[0]"), Some("deep.x.y[1]")],
                       map[Some("deep.x.y[0]") := "1", Some("deep.x.y[1]") := "2"])
  {
    var p := "deep" + "." + "x" + "." + "y";
    OneMember(Member("deep", Obj([Member("x", Obj([Member("y", Arr([Other("1"), Other("2")]))]))])), None);
    OneMember(Member("x", Obj([Member("y", Arr([Other("1"), Other("2")]))])), Some("deep"));
    OneMember(Member("y", Arr([Other("1"), Other("2")])), Some("deep" + "." + "x"));
    TwoElements(Other("1"), Other("2"), Some(p));
    assert Decimal(0) == "0" && Decimal(1) == "1";
    assert p + "[" + "0" + "]" == "deep.x.y[0]";
    assert p + "[" + "1" + "]" == "deep.x.y[1]";
    PutTwo(Empty(), (Some("deep.x.y[0]"), "1"), (Some("deep.x.y[1]"), "2"));
  }

  /** `{n: null}` gives `n=""`. */
  lemma NullMember()
    ensures Flatten(Obj([Member("n", Null)])) == OrderedMap([Some("n")], map[Some("n") := ""])
  {
  }

  /** A top-level array: the null root is rendered, so the keys are `null[0]`, `null[1]`. */
  lemma RootArray()
    ensures Flatten(Arr([Str("a"), Str("b")]))
         == OrderedMap([Some("null[0]"), Some("null[1]")], map[Some("null[0]") := "a", Some("null[1]") := "b"])
  {
    TwoElements(Str("a"), Str("b"), None);
    assert Decimal(0) == "0" && Decimal(1) == "1";
    assert "null" + "[" + "0" + "]" == "null[0]";
    assert "null" + "[" + "1" + "]" == "null[1]";
    PutTwo(Empty(), (Some("null[0]"), "a"), (Some("null[1]"), "b"));
  }

  /**
   * `{"a.b": 1, a: {b: 2}}`: two leaves get the path `a.b`; the map keeps the
   * key where the first put placed it and the value of the second.
   */
  lemma DottedNameCollides()
    ensures var doc := Obj([Member("a.b", Other("1")), Member("a", Obj([Member("b", Other("2"))]))]);
            && LeafCount(doc) == 2
            && Flatten(doc) == OrderedMap([Some("a.b")], map[Some("a.b") := "2"])
  {
    TwoMembers(Member("a.b", Other("1")), Member("a", Obj([Member("b", Other("2"))])), None);
    OneMember(Member("b", Other("2")), Some("a"));
    assert "a" + "." + "b" == "a.b";
    PutTwo(Empty(), (Some("a.b"), "1"), (Some("a.b"), "2"));
  }

  /** `{a: x, a: y}`: a repeated member name leaves one property with the last value. */
  lemma RepeatedNameOverwrites()
    ensures var doc := Obj([Member("a", Str("x")), Member("a", Str("y"))]);
            && LeafCount(doc) == 2
            && Flatten(doc) == OrderedMap([Some("a")], map[Some("a") := "y"])
  {
    TwoMembers(Member("a", Str("x")), Member("a", Str("y")), None);
    PutTwo(Empty(), (Some("a"), "x"), (Some("a"), "y"));
  }

  /** `{}` has no leaf, so the map is empty. */
  lemma EmptyObject()
    ensures Flatten(Obj([])) == Empty()
  {
  }
}
