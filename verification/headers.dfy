/** `mergeHeaders`: merges a base header object and an override object,
    storing every header name in ASCII lower case. */
module Headers {

  /** A header as it appears in a header object: its name and its value, in
      the object's property order. */
  type Header<V> = (string, V)

  predicate IsUpper(c: char) {
    'A' <= c <= 'Z'
  }

  /** ASCII lower-casing of one character. */
  function LowerChar(c: char): (r: char)
    ensures !IsUpper(r)
    ensures IsUpper(c) ==> r as int == c as int + 32
    ensures !IsUpper(c) ==> r == c
  {
    if IsUpper(c) then (c as int + 32) as char else c
  }

  /** A name without upper-case ASCII letters. */
  predicate IsLower(s: string) {
    forall i :: 0 <= i < |s| ==> !IsUpper(s[i])
  }

  /** `s` with every ASCII upper-case letter lowered, all else unchanged. */
  function Lower(s: string): (r: string)
    ensures |r| == |s| && IsLower(r)
    ensures forall i :: 0 <= i < |s| ==> if IsUpper(s[i]) then r[i] as int == s[i] as int + 32 else r[i] == s[i]
  {
    seq(|s|, i requires 0 <= i < |s| => LowerChar(s[i]))
  }

  /** Lower-casing leaves lower-case names alone, so it is idempotent. */
  lemma LowerOfLower(s: string)
    ensures IsLower(s) ==> Lower(s) == s
    ensures Lower(Lower(s)) == Lower(s)
  {
  }

  /** Stores the headers of `hs` into `acc` under their lower-cased names, in order. */
  function StoreLowered<V>(acc: map<string, V>, hs: seq<Header<V>>): map<string, V>
    decreases |hs|
  {
    if hs == [] then acc else StoreLowered(acc[Lower(hs[0].0) := hs[0].1], hs[1..])
  }

  /** `mergeHeaders(base, overrides)`: base headers first, then the overrides. */
  function MergeHeaders<V>(base: seq<Header<V>>, overrides: seq<Header<V>>): map<string, V> {
    StoreLowered(StoreLowered(map[], base), overrides)
  }

  /** The names and values of `StoreLowered` come from `acc` or from `hs`. */
  lemma {:induction false} StoreLoweredKeys<V>(acc: map<string, V>, hs: seq<Header<V>>)
    ensures forall name :: name in StoreLowered(acc, hs) <==> name in acc || exists h :: h in hs && Lower(h.0) == name
    ensures forall name :: name in StoreLowered(acc, hs) ==>
      (name in acc && StoreLowered(acc, hs)[name] == acc[name])
      || exists h :: h in hs && Lower(h.0) == name && h.1 == StoreLowered(acc, hs)[name]
    decreases |hs|
  {
    if hs != [] {
      var acc' := acc[Lower(hs[0].0) := hs[0].1];
      StoreLoweredKeys(acc', hs[1..]);
      assert forall h :: h in hs <==> h == hs[0] || h in hs[1..];
    }
  }

  // ---------------------------------------------------------------------------
  // Properties

  /** Every name of the result is lower case; the names are exactly the
      lower-cased names of the inputs, each once; every value is passed
      through unchanged from an input header of that name. */
  lemma MergeHeadersNames<V>(base: seq<Header<V>>, overrides: seq<Header<V>>)
    ensures forall name :: name in MergeHeaders(base, overrides) ==> IsLower(name)
    ensures forall name :: name in MergeHeaders(base, overrides) <==> exists h :: h in base + overrides && Lower(h.0) == name
    ensures forall name :: name in MergeHeaders(base, overrides) ==>
      exists h :: h in base + overrides && Lower(h.0) == name && h.1 == MergeHeaders(base, overrides)[name]
  {
    StoreLoweredKeys(map[], base);
    StoreLoweredKeys(StoreLowered(map[], base), overrides);
  }

  /** The result depends only on the lower-cased names: spelling a header
      name in another case changes nothing. */
  lemma {:induction false} StoreLoweredIgnoresCase<V>(acc: map<string, V>, hs: seq<Header<V>>, hs': seq<Header<V>>)
    requires |hs| == |hs'|
    requires forall i :: 0 <= i < |hs| ==> Lower(hs[i].0) == Lower(hs'[i].0) && hs[i].1 == hs'[i].1
    ensures StoreLowered(acc, hs) == StoreLowered(acc, hs')
    decreases |hs|
  {
    if hs != [] {
      StoreLoweredIgnoresCase(acc[Lower(hs[0].0) := hs[0].1], hs[1..], hs'[1..]);
    }
  }

  lemma MergeHeadersIgnoresCase<V>(base: seq<Header<V>>, overrides: seq<Header<V>>,
                                   base': seq<Header<V>>, overrides': seq<Header<V>>)
    requires |base| == |base'| && |overrides| == |overrides'|
    requires forall i :: 0 <= i < |base| ==> Lower(base[i].0) == Lower(base'[i].0) && base[i].1 == base'[i].1
    requires forall i :: 0 <= i < |overrides| ==> Lower(overrides[i].0) == Lower(overrides'[i].0) && overrides[i].1 == overrides'[i].1
    ensures MergeHeaders(base, overrides) == MergeHeaders(base', overrides')
  {
    StoreLoweredIgnoresCase(map[], base, base');
    StoreLoweredIgnoresCase(StoreLowered(map[], base), overrides, overrides');
  }

  /** Names that stay distinct after lower-casing. */
  predicate DistinctLowered<V>(hs: seq<Header<V>>) {
    forall i, j :: 0 <= i < j < |hs| ==> Lower(hs[i].0) != Lower(hs[j].0)
  }

  lemma {:induction false} StoreLoweredDistinct<V>(acc: map<string, V>, hs: seq<Header<V>>, i: nat)
    requires DistinctLowered(hs) && i < |hs|
    ensures Lower(hs[i].0) in StoreLowered(acc, hs) && StoreLowered(acc, hs)[Lower(hs[i].0)] == hs[i].1
    decreases |hs|
  {
    var acc' := acc[Lower(hs[0].0) := hs[0].1];
    if i == 0 {
      StoreLoweredUntouched(acc', hs[1..], Lower(hs[0].0));
    } else {
      StoreLoweredDistinct(acc', hs[1..], i - 1);
    }
  }

  /** A name that no header of `hs` lowers to keeps its value from `acc`. */
  lemma {:induction false} StoreLoweredUntouched<V>(acc: map<string, V>, hs: seq<Header<V>>, name: string)
    requires forall j :: 0 <= j < |hs| ==> Lower(hs[j].0) != name
    ensures name in acc ==> name in StoreLowered(acc, hs) && StoreLowered(acc, hs)[name] == acc[name]
    decreases |hs|
  {
    if hs != [] {
      StoreLoweredUntouched(acc[Lower(hs[0].0) := hs[0].1], hs[1..], name);
    }
  }

  /** With an empty base, and override names that do not collide once
      lower-cased, the result holds each override under its lower-cased name
      with its value unchanged, and nothing else. */
  lemma EmptyBase<V>(overrides: seq<Header<V>>)
    requires DistinctLowered(overrides)
    ensures forall i :: 0 <= i < |overrides| ==>
      Lower(overrides[i].0) in MergeHeaders([], overrides) && MergeHeaders([], overrides)[Lower(overrides[i].0)] == overrides[i].1
    ensures forall name :: name in MergeHeaders([], overrides) <==> exists i :: 0 <= i < |overrides| && Lower(overrides[i].0) == name
  {
    forall i | 0 <= i < |overrides|
      ensures Lower(overrides[i].0) in MergeHeaders([], overrides) && MergeHeaders([], overrides)[Lower(overrides[i].0)] == overrides[i].1
    {
      StoreLoweredDistinct(map[], overrides, i);
    }
    EmptyBaseNames(overrides);
  }

  /** With an empty base, the names are the lower-cased override names. */
  lemma EmptyBaseNames<V>(overrides: seq<Header<V>>)
    ensures forall name :: name in MergeHeaders([], overrides) <==> exists i :: 0 <= i < |overrides| && Lower(overrides[i].0) == name
  {
    var merged := MergeHeaders([], overrides);
    MergeHeadersNames([], overrides);
    assert [] + overrides == overrides;
    forall name
      ensures name in merged <==> exists i :: 0 <= i < |overrides| && Lower(overrides[i].0) == name
    {
      if name in merged {
        var h :| h in overrides && Lower(h.0) == name;
        var i :| 0 <= i < |overrides| && overrides[i] == h;
      } else if i :| 0 <= i < |overrides| && Lower(overrides[i].0) == name {
        assert overrides[i] in [] + overrides;
      }
    }
  }
}
