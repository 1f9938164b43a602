/** What several components share: error codes (status.h), optional values, the bounds of
    machine integers. */
module Common {

  const EIO: int := 1
  const EINVARG: int := 2
  const ENOMEM: int := 3
  const ERDONLY: int := 6
  const EUNIMP: int := 7
  const EOUTOFRANGE: int := 10

  /** One more than the largest `int`. */
  const INT_LIMIT: nat := 0x8000_0000

  datatype Option<T> = None | Some(value: T)

  function Min(a: nat, b: nat): nat { if a < b then a else b }

  function Max(a: nat, b: nat): nat { if a > b then a else b }

  /** Quotient and remainder are unique. */
  lemma Quotient(x: nat, d: nat, q: nat, r: nat)
    requires x == d * q + r && r < d
    ensures x / d == q && x % d == r
  {
    var e := x / d - q;
    assert d * e == r - x % d;
  }
}
