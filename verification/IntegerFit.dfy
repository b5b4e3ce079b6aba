/** The overflow check of the encoder: whether a value of one integer type fits in another, with
    every conversion modelled as the modular wrap-around of two's complement. */
module IntegerFit {
  import Multiples

  /** An integer type of some size in bytes. */
  datatype IntType = IntType(size: nat, signed: bool) {

    ghost predicate Valid() {
      size > 0
    }

    function Modulus(): int {
      Pow256(size)
    }

    /** The values of the type. */
    predicate Contains(v: int) {
      if signed then -Modulus() <= 2 * v < Modulus() else 0 <= v < Modulus()
    }
  }

  function Pow256(n: nat): (p: nat)
    ensures p > 0 && (n > 0 ==> p % 2 == 0)
  {
    if n == 0 then 1 else 256 * Pow256(n - 1)
  }

  lemma {:induction false} Pow256Monotone(m: nat, n: nat)
    requires m <= n
    ensures Pow256(m) <= Pow256(n)
    ensures m < n ==> 2 * Pow256(m) <= Pow256(n)
  {
    if m < n {
      Pow256Monotone(m, n - 1);
    }
  }

  /** Conversion to a type: the value of the type that is congruent modulo two to its width. */
  function Convert(v: int, t: IntType): int
    requires t.Valid()
  {
    var m := v % t.Modulus();
    if t.signed && 2 * m >= t.Modulus() then m - t.Modulus() else m
  }

  lemma WrapsAround(v: int, t: IntType)
    requires t.Valid()
    ensures exists wraps: int :: Convert(v, t) == v + wraps * t.Modulus()
  {
    var m := t.Modulus();
    Multiples.DivMod(v, m);
    var q := v / m;
    if Convert(v, t) == v % m {
      assert Convert(v, t) == v + (-q) * m;
    } else {
      assert Convert(v, t) == v + (-q - 1) * m;
    }
  }

  /** Conversion lands in the type, wraps around by whole moduli, and leaves the type's values alone. */
  lemma ConvertInto(v: int, t: IntType)
    requires t.Valid()
    ensures t.Contains(Convert(v, t))
    ensures exists wraps: int :: Convert(v, t) == v + wraps * t.Modulus()
    ensures t.Contains(v) ==> Convert(v, t) == v
  {
    var m := t.Modulus();
    Multiples.DivMod(v, m);
    WrapsAround(v, t);
    if t.Contains(v) {
      Multiples.DivModUnique(v, if v < 0 then -1 else 0, if v < 0 then v + m else v, m);
    }
  }

  /** A conversion there and back is the identity exactly on the values both types have, as long as
      what it passes through is a value of the source. */
  lemma RoundTrip(v: int, src: IntType, dst: IntType)
    requires src.Valid() && dst.Valid() && src.Contains(v) && src.Contains(Convert(v, dst))
    ensures v == Convert(Convert(v, dst), src) <==> dst.Contains(v)
  {
    ConvertInto(v, dst);
    ConvertInto(v, src);
    ConvertInto(Convert(v, dst), src);
  }

  function FitsIn(v: int, src: IntType, dst: IntType): (fits: bool)
    requires src.Valid() && dst.Valid() && src.Contains(v)
  {
    if src.signed == dst.signed then
      if src.size <= dst.size then true
      else v == Convert(Convert(v, dst), src)
    else if src.signed then
      if v < 0 then false
      else if src.size <= dst.size then true
      else v == Convert(Convert(v, dst), src)
    else
      if src.size < dst.size then true
      else Convert(v, dst) >= 0 && v == Convert(Convert(v, dst), src)
  }

  /** For all widths and both signednesses of both types the check is right, in both directions. */
  lemma FitsInExactly(v: int, src: IntType, dst: IntType)
    requires src.Valid() && dst.Valid() && src.Contains(v)
    ensures FitsIn(v, src, dst) <==> dst.Contains(v)
  {
    ConvertInto(v, dst);
    if src.size <= dst.size {
      Pow256Monotone(src.size, dst.size);
    } else {
      Pow256Monotone(dst.size, src.size);
    }
    if src.Contains(Convert(v, dst)) {
      RoundTrip(v, src, dst);
    }
  }
}
