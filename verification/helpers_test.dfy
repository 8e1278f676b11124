/** The fixtures of the helpers' test suite, each stated as a fact about the
    model: the same inputs give the same expected outputs. */
module HelpersTest {
  import opened Wrappers
  import opened QueryString
  import opened Merge
  import opened Headers
  import opened OnceGuard
  import opened RequestErrors

  // ---------------------------------------------------------------------------
  // stringifyQuery

  lemma CountQuery()
    ensures ParamQuery(Param("count", One(Num(420)))) == "count=420"
  {
    assert NatToDecimal(42) == "42";
  }

  lemma BbqQuery()
    ensures StringifyQuery([Param("bbq", One(Bool(true))), Param("veggies", One(Bool(false)))]) == "bbq=true"
  {
  }

  /** The three fragments of `PrimitiveTypes` joined by `&` spell the expected
      query string. A fact about string literals only: stated on its own so
      the solver compares the 30 characters once, apart from the serializer. */
  lemma PrimitiveString()
    ensures "type=apples" + "&" + ("count=420" + "&" + "bbq=true") == "type=apples&count=420&bbq=true"
  {
  }

  /** Strings verbatim, 420 in decimal, `true` as text, `veggies: false` omitted. */
  lemma PrimitiveTypes()
    ensures StringifyQuery([Param("type", One(Str("apples"))), Param("count", One(Num(420))),
                            Param("bbq", One(Bool(true))), Param("veggies", One(Bool(false)))])
            == "type=apples&count=420&bbq=true"
  {
    var tail := [Param("bbq", One(Bool(true))), Param("veggies", One(Bool(false)))];
    var count := Param("count", One(Num(420)));
    var kind := Param("type", One(Str("apples")));
    BbqQuery();
    CountQuery();
    StringifyStep(count, tail);
    StringifyStep(kind, [count] + tail);
    assert [kind] + ([count] + tail) == [kind, count, tail[0], tail[1]];
    PrimitiveString();
  }

  /** Top-level arrays repeat their key once per element. */
  lemma TopLevelArrays()
    ensures StringifyQuery([Param("foo", Many([Str("x")])), Param("bar", Many([Str("y"), Str("z")]))])
            == "foo=x&bar=y&bar=z"
  {
  }

  // ---------------------------------------------------------------------------
  // merge

  /** `merge({foo: true}, {bar: true}, {baz: true})` joins all three sets. */
  lemma JoinsMultipleSets()
    ensures Merge.Merge([map["foo" := Some(true)], map["bar" := Some(true)], map["baz" := Some(true)]])
            == map["foo" := true, "bar" := true, "baz" := true]
  {
    var foo: Source<bool> := map["foo" := Some(true)];
    var bar: Source<bool> := map["bar" := Some(true)];
    var baz: Source<bool> := map["baz" := Some(true)];
    AssignNothing<bool>(map[]);
    AssignDefined(map[], map[], "foo", true);
    AssignNothing(map["foo" := true]);
    AssignDefined(map["foo" := true], map[], "bar", true);
    AssignNothing(map["foo" := true, "bar" := true]);
    AssignDefined(map["foo" := true, "bar" := true], map[], "baz", true);
    assert [foo, bar, baz][1..] == [bar, baz] && [bar, baz][1..] == [baz] && [baz][1..] == [];
  }

  /** `merge({x: 1, y: 2}, {x: undefined, y: 3})` keeps `x: 1` and takes `y: 3`. */
  lemma IgnoresUndefined()
    ensures Merge.Merge([map["x" := Some(1), "y" := Some(2)], map["x" := None, "y" := Some(3)]])
            == map["x" := 1, "y" := 3]
  {
    var first: Source<int> := map["x" := Some(1), "y" := Some(2)];
    var second: Source<int> := map["x" := None, "y" := Some(3)];
    AssignNothing<int>(map[]);
    AssignDefined(map[], map[], "x", 1);
    AssignDefined(map[], map["x" := Some(1)], "y", 2);
    var acc := map["x" := 1, "y" := 2];
    AssignNothing(acc);
    AssignUndefined(acc, map[], "x");
    AssignDefined(acc, map["x" := None], "y", 3);
    assert [first, second][1..] == [second] && [second][1..] == [];
  }

  // ---------------------------------------------------------------------------
  // mergeHeaders

  /** `mergeHeaders({}, {'x-my-hEaDeR': true, 'Accept': true, 'content-type': true})`. */
  lemma ReturnsLowercaseNames()
    ensures MergeHeaders([], [("x-my-hEaDeR", true), ("Accept", true), ("content-type", true)])
            == map["x-my-header" := true, "accept" := true, "content-type" := true]
  {
    var hs := [("x-my-hEaDeR", true), ("Accept", true), ("content-type", true)];
    assert MergeHeaders([], hs) == StoreLowered(map[], hs);
    assert StoreLowered(map[], hs) == map["x-my-header" := true, "accept" := true, "content-type" := true] by {
      assert Lower("x-my-hEaDeR") == "x-my-header";
      assert Lower("Accept") == "accept";
      assert Lower("content-type") == "content-type";
      assert hs[1..] == [("Accept", true), ("content-type", true)];
      assert hs[1..][1..] == [("content-type", true)];
    }
  }

  // ---------------------------------------------------------------------------
  // once

  /** `fn(); fn()` with `fn = once(() => attempts++)`: `attempts` ends at 1. */
  method CallTwice() returns (attempts: nat)
    ensures attempts == 1
  {
    var fn := new Once();
    fn.Call();
    fn.Call();
    attempts := fn.runs;
  }

  // ---------------------------------------------------------------------------
  // parseJSONError

  /** Status 400 with body `{}`: message "Bad Request". */
  lemma BadRequest()
    ensures ParseJSONError(400, Json(None, None)) == RequestError("RequestError", 400, "Bad Request")
  {
  }

  /** Status 400 with body `{message: 'test msg'}`. */
  lemma MessageField()
    ensures ParseJSONError(400, Json(Some("test msg"), None)) == RequestError("RequestError", 400, "test msg")
  {
  }

  /** Status 400 with body `{error: 'test err'}`. */
  lemma ErrorField()
    ensures ParseJSONError(400, Json(None, Some("test err"))) == RequestError("RequestError", 400, "test err")
  {
  }
}
