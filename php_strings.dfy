/**
 * The parts of PHP's string semantics that the order-timestamp lookup relies on:
 * `empty` on a string, the `<`/`>` operators on two non-numeric strings, and the
 * built-in `max` applied to two nullable strings.
 */
module PhpStrings {
  import opened Wrappers

  /** PHP's `empty($s)` for a string: true for "" and for "0". */
  predicate IsEmptyPhp(s: string) {
    s == "" || s == "0"
  }

  /** A nullable string that PHP's `empty` (and a truthiness test) sees as set. */
  predicate Filled(o: Option<string>) {
    o.Some? && !IsEmptyPhp(o.value)
  }

  /**
   * PHP's `a < b` on two non-numeric strings: byte-wise comparison, where a proper
   * prefix sorts first. Characters compare by code point, which is the order of
   * their UTF-8 encodings, so this is the byte order PHP uses.
   */
  predicate StrLess(a: string, b: string)
    decreases |a|
  {
    if a == [] then b != []
    else if b == [] then false
    else if a[0] != b[0] then a[0] < b[0]
    else StrLess(a[1..], b[1..])
  }

  /** PHP's `a <= b` on two non-numeric strings. */
  predicate StrLessEq(a: string, b: string) {
    a == b || StrLess(a, b)
  }

  lemma {:induction false} StrLessIrreflexive(a: string)
    ensures !StrLess(a, a)
    decreases |a|
  {
    if a != [] {
      StrLessIrreflexive(a[1..]);
    }
  }

  lemma {:induction false} StrLessTransitive(a: string, b: string, c: string)
    requires StrLess(a, b) && StrLess(b, c)
    ensures StrLess(a, c)
    decreases |a|
  {
    if a != [] && a[0] == b[0] && b[0] == c[0] {
      StrLessTransitive(a[1..], b[1..], c[1..]);
    }
  }

  /** Any two strings are equal or ordered one way or the other. */
  lemma {:induction false} StrLessTotal(a: string, b: string)
    ensures a == b || StrLess(a, b) || StrLess(b, a)
    decreases |a|
  {
    if a != [] && b != [] && a[0] == b[0] {
      StrLessTotal(a[1..], b[1..]);
      if a[1..] == b[1..] {
        assert a == [a[0]] + a[1..] && b == [b[0]] + b[1..];
      }
    }
  }

  lemma StrLessAsymmetric(a: string, b: string)
    requires StrLess(a, b)
    ensures !StrLess(b, a)
  {
    if StrLess(b, a) {
      StrLessTransitive(a, b, a);
      StrLessIrreflexive(a);
    }
  }

  lemma StrLessEqAntisymmetric(a: string, b: string)
    requires StrLessEq(a, b) && StrLessEq(b, a)
    ensures a == b
  {
    if a != b {
      StrLessAsymmetric(a, b);
    }
  }

  /**
   * PHP's loose `<` between two nullable strings, as `max` applies it: null is
   * converted to "", so it sorts below every string except "" (which it equals).
   */
  predicate NullableLess(a: Option<string>, b: Option<string>) {
    if b.None? then false
    else if a.None? then b.value != ""
    else StrLess(a.value, b.value)
  }

  /**
   * PHP's `max($a, $b)` on two nullable strings: the larger one, and the first
   * argument when neither is larger.
   */
  function PhpMax(a: Option<string>, b: Option<string>): (r: Option<string>)
    ensures r == a || r == b
    ensures !NullableLess(r, a) && !NullableLess(r, b)
    ensures a.Some? && b.Some? ==> StrLessEq(a.value, r.value) && StrLessEq(b.value, r.value)
    ensures a.None? && b.Some? && b.value != "" ==> r == b
    ensures a.None? && b == Some("") ==> r == a
    ensures b.None? ==> r == a
  {
    if a.Some? && b.Some? then
      StrLessTotal(a.value, b.value);
      StrLessIrreflexive(a.value);
      StrLessIrreflexive(b.value);
      if StrLess(a.value, b.value) then StrLessAsymmetric(a.value, b.value); b else a
    else if a.Some? then StrLessIrreflexive(a.value); a
    else if b.Some? then StrLessIrreflexive(b.value); if b.value != "" then b else a
    else a
  }
}
