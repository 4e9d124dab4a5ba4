/** Small shared definitions: the byte type the grids store, std::optional,
    and the absDiff helper of src/Util.hpp. */
module Util {

  /** std::uint8_t: stress, cost and bitmap cells. */
  newtype uint8 = x: int | 0 <= x < 256

  /** 2^64: std::size_t arithmetic wraps modulo this. */
  const SizeModulus: nat := 0x1_0000_0000_0000_0000

  /** std::optional<T>. */
  datatype Option<T> = None | Some(value: T)
  {
    /** value_or(d). */
    function ValueOr(d: T): T {
      if Some? then value else d
    }
  }

  /** absDiff: the distance between two unsigned values, computed without
      ever subtracting the larger from the smaller. */
  function AbsDiff(a: nat, b: nat): (r: nat)
    ensures a + r == b || b + r == a
    ensures r == 0 <==> a == b
  {
    if a >= b then a - b else b - a
  }

  function Min(a: int, b: int): (r: int)
    ensures r <= a && r <= b && (r == a || r == b)
  {
    if a <= b then a else b
  }

  function Max(a: int, b: int): (r: int)
    ensures r >= a && r >= b && (r == a || r == b)
  {
    if a >= b then a else b
  }

  /** A prefix one element longer. */
  lemma PrefixSnoc<T>(s: seq<T>, k: nat)
    requires k < |s|
    ensures s[..k + 1] == s[..k] + [s[k]]
  {
  }

  /** A slice one element longer. */
  lemma SliceSnoc<T>(s: seq<T>, i: nat, j: nat)
    requires i <= j < |s|
    ensures s[i..j + 1] == s[i..j] + [s[j]]
  {
  }

  /** Two adjacent slices make the longer one. */
  lemma SliceJoin<T>(s: seq<T>, i: nat, j: nat)
    requires i <= j <= |s|
    ensures s[i..j] + s[j..] == s[i..]
  {
  }

  /** No element occurs twice. */
  predicate Distinct<T(==)>(s: seq<T>) {
    forall i, j | 0 <= i < j < |s| :: s[i] != s[j]
  }

  lemma DistinctConcat<T>(a: seq<T>, b: seq<T>)
    requires Distinct(a) && Distinct(b) && forall c | c in a :: c !in b
    ensures Distinct(a + b)
  {
    forall i, j | 0 <= i < j < |a + b|
      ensures (a + b)[i] != (a + b)[j]
    {
      if i < |a| && j >= |a| {
        assert (a + b)[i] in a && (a + b)[j] in b;
      }
    }
  }
}
