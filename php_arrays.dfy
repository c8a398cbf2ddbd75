/**
 * The two PHP array built-ins the lookup applies to its identifier lists,
 * on lists (PHP arrays with keys 0..n-1): `array_unique` and `array_chunk`.
 */
module PhpArrays {

  /** No value occurs twice. */
  predicate Distinct<T(==)>(s: seq<T>) {
    forall i, j :: 0 <= i < j < |s| ==> s[i] != s[j]
  }

  /**
   * `array_unique($s)`: every value once, at the place of its first occurrence; the
   * contract states the values and that none repeats, not their order.
   * (PHP keeps the surviving keys; the only consumer here, `array_chunk`,
   * renumbers them, so the list of values is all that matters.)
   */
  function ArrayUnique<T(==,!new)>(s: seq<T>): (r: seq<T>)
    ensures forall x :: x in r <==> x in s
    ensures Distinct(r)
    ensures |r| <= |s|
  {
    if s == [] then []
    else
      var rest := ArrayUnique(s[..|s| - 1]);
      assert s == s[..|s| - 1] + [s[|s| - 1]];
      if s[|s| - 1] in rest then rest else rest + [s[|s| - 1]]
  }

  /** A list that already has no duplicates comes back unchanged. */
  lemma {:induction false} ArrayUniqueOfDistinct<T(!new)>(s: seq<T>)
    requires Distinct(s)
    ensures ArrayUnique(s) == s
  {
    if s != [] {
      var init := s[..|s| - 1];
      assert Distinct(init);
      ArrayUniqueOfDistinct(init);
      assert s[|s| - 1] !in init;
      assert s == init + [s[|s| - 1]];
    }
  }

  /** The lists of a list of lists, one after another. */
  function Flatten<T>(chunks: seq<seq<T>>): seq<T> {
    if chunks == [] then [] else chunks[0] + Flatten(chunks[1..])
  }

  lemma {:induction false} FlattenMembership<T>(chunks: seq<seq<T>>, x: T)
    ensures x in Flatten(chunks) <==> exists i :: 0 <= i < |chunks| && x in chunks[i]
  {
    if chunks != [] {
      FlattenMembership(chunks[1..], x);
      if exists i :: 0 <= i < |chunks| - 1 && x in chunks[1..][i] {
        var i :| 0 <= i < |chunks| - 1 && x in chunks[1..][i];
        assert chunks[1..][i] == chunks[i + 1];
      }
      if exists i :: 0 <= i < |chunks| && x in chunks[i] {
        var i :| 0 <= i < |chunks| && x in chunks[i];
        if i > 0 {
          assert chunks[1..][i - 1] == chunks[i];
        }
      }
    }
  }

  /** The concatenation of the first lists, then the last one. */
  lemma {:induction false} FlattenSnoc<T>(chunks: seq<seq<T>>)
    requires chunks != []
    ensures Flatten(chunks) == Flatten(chunks[..|chunks| - 1]) + chunks[|chunks| - 1]
  {
    if |chunks| > 1 {
      var init := chunks[..|chunks| - 1];
      FlattenSnoc(chunks[1..]);
      assert chunks[1..][..|chunks| - 2] == init[1..];
      assert chunks[1..][|chunks| - 2] == chunks[|chunks| - 1];
      assert Flatten(init) == init[0] + Flatten(init[1..]);
      assert Flatten(chunks) == chunks[0] + Flatten(chunks[1..]);
    } else {
      assert Flatten(chunks[1..]) == [];
    }
  }

  /** The two parts of a list without repeats have no repeats and no value in common. */
  lemma DistinctConcat<T>(a: seq<T>, b: seq<T>)
    requires Distinct(a + b)
    ensures Distinct(a) && Distinct(b)
    ensures forall x :: x in a ==> x !in b
  {
    forall i, j | 0 <= i < j < |a|
      ensures a[i] != a[j]
    {
      assert a[i] == (a + b)[i] && a[j] == (a + b)[j];
    }
    forall i, j | 0 <= i < j < |b|
      ensures b[i] != b[j]
    {
      assert b[i] == (a + b)[|a| + i] && b[j] == (a + b)[|a| + j];
    }
    forall x | x in a
      ensures x !in b
    {
      var i :| 0 <= i < |a| && a[i] == x;
      forall j | 0 <= j < |b|
        ensures b[j] != x
      {
        assert (a + b)[i] == x && (a + b)[|a| + j] == b[j];
      }
    }
  }

  /**
   * `array_chunk($s, $size)`: consecutive pieces of `size` elements, the last one
   * possibly shorter; an empty list gives no pieces. PHP rejects a size below 1.
   */
  function ArrayChunk<T>(s: seq<T>, size: nat): (chunks: seq<seq<T>>)
    requires size > 0
    ensures Flatten(chunks) == s
    ensures forall i :: 0 <= i < |chunks| ==> 0 < |chunks[i]| <= size
    ensures forall i :: 0 <= i < |chunks| - 1 ==> |chunks[i]| == size
    ensures s == [] <==> chunks == []
    decreases |s|
  {
    if s == [] then []
    else if |s| <= size then
      assert Flatten([s]) == s + Flatten<T>([]);
      [s]
    else
      var rest := ArrayChunk(s[size..], size);
      var chunks := [s[..size]] + rest;
      assert chunks[1..] == rest;
      assert s == s[..size] + s[size..];
      chunks
  }
}
