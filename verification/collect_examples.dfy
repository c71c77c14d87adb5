/**
 The scenarios the package's examples and tests walk through, stated about
 the model. Keys and Values may come back in any order, so their scenarios
 compare multisets, as the tests compare with ElementsMatch.
 */
module CollectExamples {
  import opened Sequences
  import opened Collect

  /** A struct with one string field, as in the examples. */
  datatype Foo = Foo(bar: string)

  /** The input and output structs of the struct-to-struct example. */
  datatype In = In(bar: string)
  datatype Out = Out(baz: string)

  /** A stand-in for Go's `any`, covering the dynamic values the map tests store. */
  datatype Any = Str(s: string) | Float(r: real) | EmptyStruct

  /* Applying the string length to ["a", "bb", "ccc", "dddd"] gives [1, 2, 3, 4].
     Go's `len` counts bytes and `|s|` counts characters; they agree on these
     ASCII strings. */
  lemma ApplyStringToInt()
    ensures Apply(["a", "bb", "ccc", "dddd"], (s: string) => |s|) == [1, 2, 3, 4]
  {
  }

  /* Appending "a" to the field of each struct keeps the positions. */
  lemma ApplyStructToString()
    ensures Apply([Foo("a"), Foo("bb"), Foo("ccc"), Foo("dddd")], (foo: Foo) => foo.bar + "a")
            == ["aa", "bba", "ccca", "dddda"]
  {
    assert "a" + "a" == "aa";
    assert "bb" + "a" == "bba";
    assert "ccc" + "a" == "ccca";
    assert "dddd" + "a" == "dddda";
  }

  /* Building a new struct from each struct keeps the positions. */
  lemma ApplyStructToStruct()
    ensures Apply([In("a"), In("bb"), In("ccc"), In("dddd")], (foo: In) => Out(foo.bar + "a"))
            == [Out("aa"), Out("bba"), Out("ccca"), Out("dddda")]
  {
    assert "a" + "a" == "aa";
    assert "bb" + "a" == "bba";
    assert "ccc" + "a" == "ccca";
    assert "dddd" + "a" == "dddda";
  }

  /* Keeping the elements above 2 of [1, 2, 3, 4] gives [3, 4]. */
  lemma SelectAboveTwo()
    ensures Select([1, 2, 3, 4], (x: int) => x > 2) == [3, 4]
  {
  }

  /* Dropping the elements above 2 of [1, 2, 3, 4] gives [1, 2]. */
  lemma RejectAboveTwo()
    ensures Reject([1, 2, 3, 4], (x: int) => x > 2) == [1, 2]
  {
  }

  /* The keys of {1, 2, 12} come back as 1, 2 and 12 in some order. */
  method KeysOfThree() returns (ks: seq<int>)
    ensures multiset(ks) == multiset{1, 2, 12}
  {
    ks := Keys(map[1 := Str("1"), 2 := Float(1.2), 12 := EmptyStruct]);
    NoDuplicatesMultiset(ks);
  }

  /* The values of {1: "1", 2: 1.2, 10: struct{}{}} come back as those three
     values in some order. */
  method ValuesOfThree() returns (vs: seq<Any>)
    ensures multiset(vs) == multiset{Str("1"), EmptyStruct, Float(1.2)}
  {
    var m := map[1 := Str("1"), 2 := Float(1.2), 10 := EmptyStruct];
    ghost var ks;
    vs, ks := Values(m);
    assert KeysWithValue(m, Str("1")) == {1};
    assert KeysWithValue(m, Float(1.2)) == {2};
    assert KeysWithValue(m, EmptyStruct) == {10};
    forall v | v != Str("1") && v != Float(1.2) && v != EmptyStruct
      ensures multiset(vs)[v] == 0
    {
      assert KeysWithValue(m, v) == {};
    }
  }

  /* The values of {1: "a", 2: "b", 10: "a"} come back as "a", "b" and "a"
     in some order: the repeated value is kept. */
  method ValuesWithRepeat() returns (vs: seq<string>)
    ensures multiset(vs) == multiset{"a", "b", "a"}
  {
    var m := map[1 := "a", 2 := "b", 10 := "a"];
    ghost var ks;
    vs, ks := Values(m);
    assert KeysWithValue(m, "a") == {1, 10};
    assert KeysWithValue(m, "b") == {2};
    forall v | v != "a" && v != "b"
      ensures multiset(vs)[v] == 0
    {
      assert KeysWithValue(m, v) == {};
    }
  }
}
