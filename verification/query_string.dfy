/** `stringifyQuery`: turns the own properties of a parameters object, in
    JavaScript's property order, into a `key=value&key=value` query string. */
module QueryString {

  /** A scalar parameter value. JavaScript numbers are modelled as integers. */
  datatype Scalar = Str(text: string) | Num(n: int) | Bool(b: bool)

  /** A parameter value: one scalar, or an array of scalars whose key is repeated. */
  datatype Value = One(scalar: Scalar) | Many(items: seq<Scalar>)

  /** One property of the parameters object. */
  datatype Param = Param(key: string, value: Value)

  // ---------------------------------------------------------------------------
  // Rendering of scalars

  function Digit(d: nat): char
    requires d < 10
  {
    "0123456789"[d]
  }

  predicate IsDigit(c: char) {
    '0' <= c <= '9'
  }

  /** The decimal form of `n`: digits only, no leading zero. */
  function NatToDecimal(n: nat): string {
    if n < 10 then [Digit(n)] else NatToDecimal(n / 10) + [Digit(n % 10)]
  }

  /** The decimal form is digits only, with no leading zero. */
  lemma {:induction false} NatToDecimalDigits(n: nat)
    ensures |NatToDecimal(n)| > 0 && (NatToDecimal(n)[0] == '0' ==> NatToDecimal(n) == "0")
    ensures forall i :: 0 <= i < |NatToDecimal(n)| ==> IsDigit(NatToDecimal(n)[i])
  {
    if n >= 10 {
      NatToDecimalDigits(n / 10);
    }
  }

  /** The number a string of decimal digits denotes. */
  function DecimalValue(s: string): int {
    if s == [] then 0
    else DecimalValue(s[..|s| - 1]) * 10 + (s[|s| - 1] as int - '0' as int)
  }

  /** Reading the decimal form back gives the number. */
  lemma {:induction false} DecimalRoundTrip(n: nat)
    ensures DecimalValue(NatToDecimal(n)) == n
  {
    if n >= 10 {
      var r := NatToDecimal(n);
      assert r[..|r| - 1] == NatToDecimal(n / 10);
      DecimalRoundTrip(n / 10);
    }
  }

  /** The plain text form of a scalar: strings verbatim, numbers in decimal,
      booleans as `true` / `false`. */
  function Render(s: Scalar): string {
    match s
    case Str(t) => t
    case Num(n) => if n < 0 then "-" + NatToDecimal(-n) else NatToDecimal(n)
    case Bool(b) => if b then "true" else "false"
  }

  /** The text `text` is the plain decimal form of `n`: at least one digit, no
      leading zero except for 0 itself, and a leading `-` for negatives. */
  predicate DenotesNumber(text: string, n: int) {
    if n >= 0 then
      && |text| > 0 && (text[0] == '0' ==> text == "0")
      && (forall i :: 0 <= i < |text| ==> IsDigit(text[i]))
      && DecimalValue(text) == n
    else
      && |text| > 1 && text[0] == '-' && text[1] != '0'
      && (forall i :: 1 <= i < |text| ==> IsDigit(text[i]))
      && DecimalValue(text[1..]) == -n
  }

  /** Strings render verbatim, numbers as decimal text that reads back as the
      number, booleans as `true` / `false`. */
  lemma RenderMeaning(s: Scalar)
    ensures s.Str? ==> Render(s) == s.text
    ensures s.Num? ==> DenotesNumber(Render(s), s.n)
    ensures s.Bool? ==> Render(s) == if s.b then "true" else "false"
  {
    if s.Num? {
      var n := s.n;
      DecimalRoundTrip(if n < 0 then -n else n);
      NatToDecimalDigits(if n < 0 then -n else n);
      if n < 0 {
        assert Render(s)[1..] == NatToDecimal(-n);
      }
    }
  }

  // ---------------------------------------------------------------------------
  // Specification: the (key, text) pairs a parameters object stands for

  /** One pair per array element, in element order, the key repeated. */
  function ItemPairs(key: string, items: seq<Scalar>): seq<(string, string)> {
    if items == [] then [] else [(key, Render(items[0]))] + ItemPairs(key, items[1..])
  }

  /** The pairs one parameter contributes: none for `false`. */
  function ParamPairs(p: Param): seq<(string, string)> {
    match p.value
    case One(Bool(false)) => []
    case One(s) => [(p.key, Render(s))]
    case Many(items) => ItemPairs(p.key, items)
  }

  /** The pairs of all parameters, in parameter order. */
  function Pairs(ps: seq<Param>): seq<(string, string)> {
    if ps == [] then [] else ParamPairs(ps[0]) + Pairs(ps[1..])
  }

  function Fragment(pair: (string, string)): string {
    pair.0 + "=" + pair.1
  }

  function Fragments(pairs: seq<(string, string)>): seq<string> {
    if pairs == [] then [] else [Fragment(pairs[0])] + Fragments(pairs[1..])
  }

  /** The parts separated by `&`. */
  function Join(parts: seq<string>): string {
    if parts == [] then ""
    else if |parts| == 1 then parts[0]
    else parts[0] + "&" + Join(parts[1..])
  }

  // ---------------------------------------------------------------------------
  // The serializer

  /** `key=value` fragments of the elements of an array, joined by `&`. */
  function ItemsQuery(key: string, items: seq<Scalar>): string {
    if items == [] then ""
    else
      var head := key + "=" + Render(items[0]);
      if |items| == 1 then head else head + "&" + ItemsQuery(key, items[1..])
  }

  /** What one parameter adds to the query string; empty when it adds nothing. */
  function ParamQuery(p: Param): string {
    match p.value
    case One(Bool(false)) => ""
    case One(s) => p.key + "=" + Render(s)
    case Many(items) => ItemsQuery(p.key, items)
  }

  /** `stringifyQuery`: the non-empty contributions of the parameters joined by `&`. */
  function StringifyQuery(ps: seq<Param>): string {
    if ps == [] then ""
    else
      var head := ParamQuery(ps[0]);
      var tail := StringifyQuery(ps[1..]);
      if head == "" then tail else if tail == "" then head else head + "&" + tail
  }

  /** One step of the serializer when both the first contribution and the rest are non-empty. */
  lemma StringifyStep(p: Param, rest: seq<Param>)
    requires |ParamQuery(p)| > 0 && |StringifyQuery(rest)| > 0
    ensures StringifyQuery([p] + rest) == ParamQuery(p) + "&" + StringifyQuery(rest)
  {
    assert ([p] + rest)[1..] == rest;
  }

  // ---------------------------------------------------------------------------
  // The serializer meets its specification

  lemma {:induction false} JoinEmpty(parts: seq<string>)
    requires forall i :: 0 <= i < |parts| ==> parts[i] != ""
    ensures Join(parts) == "" <==> parts == []
  {
    if |parts| > 1 {
      assert |Join(parts)| >= |parts[0]|;
    }
  }

  lemma {:induction false} JoinConcat(a: seq<string>, b: seq<string>)
    ensures Join(a + b) == if a == [] then Join(b) else if b == [] then Join(a) else Join(a) + "&" + Join(b)
  {
    if a != [] && b != [] {
      if |a| == 1 {
        assert a + b == [a[0]] + b;
      } else {
        assert a + b == [a[0]] + (a[1..] + b);
        JoinConcat(a[1..], b);
      }
    } else if a == [] {
      assert a + b == b;
    } else {
      assert a + b == a;
    }
  }

  lemma {:induction false} FragmentsConcat(a: seq<(string, string)>, b: seq<(string, string)>)
    ensures Fragments(a + b) == Fragments(a) + Fragments(b)
  {
    if a == [] {
      assert a + b == b;
    } else {
      assert a + b == [a[0]] + (a[1..] + b);
      FragmentsConcat(a[1..], b);
    }
  }

  lemma {:induction false} FragmentsNonEmpty(pairs: seq<(string, string)>)
    ensures |Fragments(pairs)| == |pairs|
    ensures forall i :: 0 <= i < |pairs| ==> Fragments(pairs)[i] == Fragment(pairs[i]) != ""
  {
    if pairs != [] {
      FragmentsNonEmpty(pairs[1..]);
    }
  }

  lemma {:induction false} ItemsQueryMeetsSpec(key: string, items: seq<Scalar>)
    ensures ItemsQuery(key, items) == Join(Fragments(ItemPairs(key, items)))
  {
    if items != [] {
      ItemsQueryMeetsSpec(key, items[1..]);
      if |items| > 1 {
        FragmentsNonEmpty(ItemPairs(key, items[1..]));
        assert ItemPairs(key, items[1..]) != [];
      }
    }
  }

  lemma ParamQueryMeetsSpec(p: Param)
    ensures ParamQuery(p) == Join(Fragments(ParamPairs(p)))
  {
    if p.value.Many? {
      ItemsQueryMeetsSpec(p.key, p.value.items);
    }
  }

  /** `stringifyQuery` emits exactly one `key=value` fragment per pair of
      `Pairs(ps)`, in order, separated by `&`. */
  lemma {:induction false} StringifyQueryMeetsSpec(ps: seq<Param>)
    ensures StringifyQuery(ps) == Join(Fragments(Pairs(ps)))
  {
    if ps != [] {
      var a := Fragments(ParamPairs(ps[0]));
      var b := Fragments(Pairs(ps[1..]));
      StringifyQueryMeetsSpec(ps[1..]);
      ParamQueryMeetsSpec(ps[0]);
      FragmentsConcat(ParamPairs(ps[0]), Pairs(ps[1..]));
      FragmentsNonEmpty(ParamPairs(ps[0]));
      FragmentsNonEmpty(Pairs(ps[1..]));
      JoinEmpty(a);
      JoinEmpty(b);
      JoinConcat(a, b);
    }
  }

  // ---------------------------------------------------------------------------
  // Properties of the output

  lemma {:induction false} PairsConcat(a: seq<Param>, b: seq<Param>)
    ensures Pairs(a + b) == Pairs(a) + Pairs(b)
  {
    if a == [] {
      assert a + b == b;
    } else {
      assert a + b == [a[0]] + (a[1..] + b);
      PairsConcat(a[1..], b);
    }
  }

  /** A parameter contributing no pairs can be removed without changing the pairs. */
  lemma PairsWithout(before: seq<Param>, p: Param, after: seq<Param>)
    requires ParamPairs(p) == []
    ensures Pairs(before + [p] + after) == Pairs(before + after)
  {
    assert before + [p] + after == before + ([p] + after);
    PairsConcat(before, [p] + after);
    assert Pairs([p] + after) == Pairs(after) by {
      assert ([p] + after)[1..] == after;
    }
    PairsConcat(before, after);
  }

  /** A parameter whose value is `false` leaves no trace, not even `key=`,
      wherever it stands: the query string is the one built without it. */
  lemma FalseParamOmitted(before: seq<Param>, p: Param, after: seq<Param>)
    requires p.value == One(Bool(false))
    ensures StringifyQuery(before + [p] + after) == StringifyQuery(before + after)
  {
    PairsWithout(before, p, after);
    StringifyQueryMeetsSpec(before + [p] + after);
    StringifyQueryMeetsSpec(before + after);
  }

  /** An array value gives one pair per element, element order kept, key repeated. */
  lemma {:induction false} ArrayExpands(key: string, items: seq<Scalar>)
    ensures |ParamPairs(Param(key, Many(items)))| == |items|
    ensures forall j :: 0 <= j < |items| ==> ParamPairs(Param(key, Many(items)))[j] == (key, Render(items[j]))
  {
    if items != [] {
      ArrayExpands(key, items[1..]);
    }
  }

  /** A one-element array renders like the bare element. */
  lemma SingletonArray(key: string, x: Scalar)
    requires x != Bool(false)
    ensures StringifyQuery([Param(key, Many([x]))]) == StringifyQuery([Param(key, One(x))]) == key + "=" + Render(x)
  {
  }

  // ---------------------------------------------------------------------------
  // Reading a query string back

  /** The pieces of `s` between separators `sep`; at least one piece. */
  function Split(s: string, sep: char): (r: seq<string>)
    ensures |r| > 0
  {
    if s == [] then [""]
    else
      var rest := Split(s[1..], sep);
      if s[0] == sep then [""] + rest else [[s[0]] + rest[0]] + rest[1..]
  }

  /** `s` cut at its first `sep`; the second part is empty when there is none. */
  function SplitFirst(s: string, sep: char): (string, string) {
    if s == [] then ("", "")
    else if s[0] == sep then ("", s[1..])
    else var (k, v) := SplitFirst(s[1..], sep); ([s[0]] + k, v)
  }

  function ParseFragments(parts: seq<string>): seq<(string, string)> {
    if parts == [] then [] else [SplitFirst(parts[0], '=')] + ParseFragments(parts[1..])
  }

  /** The (key, text) pairs of a query string. */
  function ParseQuery(s: string): seq<(string, string)> {
    if s == "" then [] else ParseFragments(Split(s, '&'))
  }

  predicate Free(s: string, c: char) {
    forall i :: 0 <= i < |s| ==> s[i] != c
  }

  lemma {:induction false} SplitFree(s: string, sep: char)
    requires Free(s, sep)
    ensures Split(s, sep) == [s]
  {
    if s != [] {
      assert Free(s[1..], sep);
      SplitFree(s[1..], sep);
      assert [s[0]] + s[1..] == s;
    }
  }

  lemma {:induction false} SplitAt(s: string, sep: char, t: string)
    requires Free(s, sep)
    ensures Split(s + [sep] + t, sep) == [s] + Split(t, sep)
  {
    if s == [] {
      assert s + [sep] + t == [sep] + t;
    } else {
      var u := s + [sep] + t;
      assert u[0] == s[0] && u[1..] == s[1..] + [sep] + t;
      assert Free(s[1..], sep);
      SplitAt(s[1..], sep, t);
      var rest := Split(u[1..], sep);
      assert rest[0] == s[1..] && rest[1..] == Split(t, sep);
      assert [s[0]] + s[1..] == s;
    }
  }

  lemma {:induction false} SplitJoin(parts: seq<string>)
    requires parts != []
    requires forall i :: 0 <= i < |parts| ==> Free(parts[i], '&')
    ensures Split(Join(parts), '&') == parts
  {
    if |parts| == 1 {
      SplitFree(parts[0], '&');
    } else {
      SplitAt(parts[0], '&', Join(parts[1..]));
      assert parts[0] + "&" + Join(parts[1..]) == parts[0] + ['&'] + Join(parts[1..]);
      SplitJoin(parts[1..]);
      assert parts == [parts[0]] + parts[1..];
    }
  }

  lemma {:induction false} SplitFirstAt(k: string, sep: char, v: string)
    requires Free(k, sep)
    ensures SplitFirst(k + [sep] + v, sep) == (k, v)
  {
    if k == [] {
      assert k + [sep] + v == [sep] + v;
    } else {
      assert (k + [sep] + v)[1..] == k[1..] + [sep] + v;
      SplitFirstAt(k[1..], sep, v);
      assert [k[0]] + k[1..] == k;
    }
  }

  /** A string value is free of `&`. */
  predicate WellFormedScalar(s: Scalar) {
    s.Str? ==> Free(s.text, '&')
  }

  /** Keys free of `&` and `=`, string values free of `&`. */
  predicate WellFormed(ps: seq<Param>) {
    forall i :: 0 <= i < |ps| ==>
      && Free(ps[i].key, '&') && Free(ps[i].key, '=')
      && (ps[i].value.One? ==> WellFormedScalar(ps[i].value.scalar))
      && (ps[i].value.Many? ==> forall j :: 0 <= j < |ps[i].value.items| ==> WellFormedScalar(ps[i].value.items[j]))
  }

  lemma RenderFree(s: Scalar)
    requires WellFormedScalar(s)
    ensures Free(Render(s), '&')
  {
    if s.Num? {
      var d := NatToDecimal(if s.n < 0 then -s.n else s.n);
      NatToDecimalDigits(if s.n < 0 then -s.n else s.n);
      assert Free(d, '&');
    }
  }

  lemma {:induction false} ItemPairsFree(key: string, items: seq<Scalar>)
    requires Free(key, '&') && Free(key, '=')
    requires forall j :: 0 <= j < |items| ==> WellFormedScalar(items[j])
    ensures forall i :: 0 <= i < |ItemPairs(key, items)| ==> ItemPairs(key, items)[i].0 == key && Free(ItemPairs(key, items)[i].1, '&')
  {
    if items != [] {
      RenderFree(items[0]);
      ItemPairsFree(key, items[1..]);
    }
  }

  /** Every pair of a well-formed parameter list has a key free of `&` and
      `=` and a text free of `&`. */
  lemma {:induction false} PairsFree(ps: seq<Param>)
    requires WellFormed(ps)
    ensures forall i :: 0 <= i < |Pairs(ps)| ==>
      Free(Pairs(ps)[i].0, '&') && Free(Pairs(ps)[i].0, '=') && Free(Pairs(ps)[i].1, '&')
  {
    if ps != [] {
      assert WellFormed(ps[1..]) by {
        forall i | 0 <= i < |ps[1..]| ensures ps[1..][i] == ps[i + 1] {}
      }
      PairsFree(ps[1..]);
      var p := ps[0];
      match p.value {
        case One(s) => RenderFree(s);
        case Many(items) => ItemPairsFree(p.key, items);
      }
    }
  }

  lemma {:induction false} ParseFragmentsInverse(pairs: seq<(string, string)>)
    requires forall i :: 0 <= i < |pairs| ==> Free(pairs[i].0, '=')
    ensures ParseFragments(Fragments(pairs)) == pairs
  {
    if pairs != [] {
      SplitFirstAt(pairs[0].0, '=', pairs[0].1);
      assert Fragment(pairs[0]) == pairs[0].0 + ['='] + pairs[0].1;
      ParseFragmentsInverse(pairs[1..]);
    }
  }

  /** Round trip: reading the query string back, cutting at `&` and then at
      the first `=`, gives exactly the kept (key, text) pairs in order. */
  lemma ParseStringifyQuery(ps: seq<Param>)
    requires WellFormed(ps)
    ensures ParseQuery(StringifyQuery(ps)) == Pairs(ps)
  {
    StringifyQueryMeetsSpec(ps);
    PairsFree(ps);
    ParseJoinFragments(Pairs(ps));
  }

  lemma FragmentFree(pair: (string, string))
    requires Free(pair.0, '&') && Free(pair.1, '&')
    ensures Free(Fragment(pair), '&')
  {
    var f := Fragment(pair);
    forall i | 0 <= i < |f| ensures f[i] != '&' {
      if i < |pair.0| {
        assert f[i] == pair.0[i];
      } else if i > |pair.0| {
        assert f[i] == pair.1[i - |pair.0| - 1];
      }
    }
  }

  /** Joining the `key=text` fragments of pairs and parsing the result gives the pairs back. */
  lemma ParseJoinFragments(pairs: seq<(string, string)>)
    requires forall i :: 0 <= i < |pairs| ==> Free(pairs[i].0, '&') && Free(pairs[i].0, '=') && Free(pairs[i].1, '&')
    ensures ParseQuery(Join(Fragments(pairs))) == pairs
  {
    var frags := Fragments(pairs);
    FragmentsNonEmpty(pairs);
    JoinEmpty(frags);
    if pairs != [] {
      forall i | 0 <= i < |pairs| ensures Free(frags[i], '&') {
        FragmentFree(pairs[i]);
      }
      SplitJoin(frags);
      ParseFragmentsInverse(pairs);
    }
  }
}
