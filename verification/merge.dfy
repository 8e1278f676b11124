/** `merge`: combines option objects left to right; a later defined value
    wins, and an `undefined` value never erases an earlier one. */
module Merge {
  import opened Wrappers

  /** An option object: each own property is defined (`Some`) or explicitly
      `undefined` (`None`). */
  type Source<V> = map<string, Option<V>>

  /** The value `m` holds for `k`, if any. */
  function Lookup<V>(m: map<string, V>, k: string): Option<V> {
    if k in m then Some(m[k]) else None
  }

  /** The value `src` defines for `k`; `None` for an absent or `undefined` property. */
  function Defined<V>(src: Source<V>, k: string): Option<V> {
    if k in src then src[k] else None
  }

  /** Copies the defined properties of `src` over `acc`. */
  function Assign<V>(acc: map<string, V>, src: Source<V>): (r: map<string, V>)
    ensures forall k :: Lookup(r, k) == if Defined(src, k).Some? then Defined(src, k) else Lookup(acc, k)
  {
    acc + map k | k in src && src[k].Some? :: src[k].value
  }

  /** A defined value overrides whatever `acc` held for that key. */
  lemma AssignDefined<V>(acc: map<string, V>, src: Source<V>, k: string, v: V)
    ensures Assign(acc, src[k := Some(v)]) == Assign(acc, src)[k := v]
  {
  }

  /** An `undefined` value for a key the source did not mention changes nothing. */
  lemma AssignUndefined<V>(acc: map<string, V>, src: Source<V>, k: string)
    requires k !in src
    ensures Assign(acc, src[k := None]) == Assign(acc, src)
  {
  }

  /** An empty source changes nothing. */
  lemma AssignNothing<V>(acc: map<string, V>)
    ensures Assign(acc, map[]) == acc
  {
  }

  /** Assigns `sources` over `acc`, first source first. */
  function MergeInto<V>(acc: map<string, V>, sources: seq<Source<V>>): map<string, V>
    decreases |sources|
  {
    if sources == [] then acc else MergeInto(Assign(acc, sources[0]), sources[1..])
  }

  /** `merge(...sources)`: a fresh object built from all sources. For every
      key it holds the value of the last source whose value for that key is
      defined, and lacks the key when no source defines it. */
  function Merge<V>(sources: seq<Source<V>>): (r: map<string, V>)
    ensures forall k :: Lookup(r, k) == LastDefined(sources, k)
  {
    assert forall k :: Lookup(MergeInto(map[], sources), k) == LastDefined(sources, k) by {
      forall k ensures Lookup(MergeInto(map[], sources), k) == LastDefined(sources, k) {
        MergeIntoMeetsSpec(map[], sources, k);
      }
    }
    MergeInto(map[], sources)
  }

  // ---------------------------------------------------------------------------
  // Specification

  /** The value of the last source that defines `k`, looking from the end. */
  function LastDefined<V>(sources: seq<Source<V>>, k: string): Option<V> {
    if sources == [] then None
    else
      var last := Defined(sources[|sources| - 1], k);
      if last.Some? then last else LastDefined(sources[..|sources| - 1], k)
  }

  /** Putting a source in front only matters where no later source defines the key. */
  lemma {:induction false} LastDefinedCons<V>(src: Source<V>, sources: seq<Source<V>>, k: string)
    ensures LastDefined([src] + sources, k)
            == if LastDefined(sources, k).Some? then LastDefined(sources, k) else Defined(src, k)
  {
    var all := [src] + sources;
    if sources == [] {
      assert all[..|all| - 1] == [];
    } else {
      assert all[|all| - 1] == sources[|sources| - 1];
      assert all[..|all| - 1] == [src] + sources[..|sources| - 1];
      LastDefinedCons(src, sources[..|sources| - 1], k);
    }
  }

  lemma {:induction false} MergeIntoMeetsSpec<V>(acc: map<string, V>, sources: seq<Source<V>>, k: string)
    ensures Lookup(MergeInto(acc, sources), k)
            == if LastDefined(sources, k).Some? then LastDefined(sources, k) else Lookup(acc, k)
    decreases |sources|
  {
    if sources != [] {
      MergeIntoMeetsSpec(Assign(acc, sources[0]), sources[1..], k);
      LastDefinedCons(sources[0], sources[1..], k);
      assert [sources[0]] + sources[1..] == sources;
    }
  }

  // ---------------------------------------------------------------------------
  // Consequences

  /** A later source's defined value overrides; a later `undefined` (or
      missing) property keeps what the earlier sources gave. */
  lemma LaterSource<V>(sources: seq<Source<V>>, src: Source<V>, k: string)
    ensures Lookup(Merge(sources + [src]), k)
            == if Defined(src, k).Some? then Defined(src, k) else Lookup(Merge(sources), k)
  {
    assert (sources + [src])[..|sources|] == sources;
  }

  /** The keys of the result are exactly the keys some source defines. */
  lemma {:induction false} MergeKeys<V>(sources: seq<Source<V>>, k: string)
    ensures k in Merge(sources) <==> exists i :: 0 <= i < |sources| && Defined(sources[i], k).Some?
  {
    LastDefinedSome(sources, k);
  }

  lemma {:induction false} LastDefinedSome<V>(sources: seq<Source<V>>, k: string)
    ensures LastDefined(sources, k).Some? <==> exists i :: 0 <= i < |sources| && Defined(sources[i], k).Some?
  {
    if sources != [] {
      var n := |sources| - 1;
      LastDefinedSome(sources[..n], k);
      if Defined(sources[n], k).None? {
        forall i | 0 <= i < n ensures sources[..n][i] == sources[i] {}
      }
    }
  }

  /** No key appears in two different sources: the merge is their union,
      each key with its own value. */
  lemma DisjointMerge<V>(sources: seq<Source<V>>, i: nat, k: string)
    requires forall a, b, key :: 0 <= a < b < |sources| && key in sources[a] ==> key !in sources[b]
    requires i < |sources| && k in sources[i] && sources[i][k].Some?
    ensures k in Merge(sources) && Merge(sources)[k] == sources[i][k].value
  {
    LastDefinedAt(sources, i, k);
  }

  /** When only source `i` mentions `k`, the last source defining `k` is `i`. */
  lemma {:induction false} LastDefinedAt<V>(sources: seq<Source<V>>, i: nat, k: string)
    requires i < |sources| && k in sources[i] && sources[i][k].Some?
    requires forall b :: i < b < |sources| ==> k !in sources[b]
    ensures LastDefined(sources, k) == sources[i][k]
  {
    var n := |sources| - 1;
    if i < n {
      LastDefinedAt(sources[..n], i, k);
    }
  }
}
