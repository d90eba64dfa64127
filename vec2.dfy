/** Two-component vectors of crates/model (`Vec2<T>`). */
module Vec2 {
  import opened Unsigned

  /** `Vec2<T>`; the generic `T` is modelled by unbounded integers. */
  datatype Vec2 = Vec2(x: int, y: int)

  function New(x: int, y: int): (v: Vec2)
    ensures v.x == x && v.y == y
  {
    Vec2(x, y)
  }

  /** `Add` for `Vec2<T>`: uses `T`'s own `+`, so no wrap-around is modelled here. */
  function Add(a: Vec2, b: Vec2): (r: Vec2)
    ensures r.x == a.x + b.x && r.y == a.y + b.y
  {
    New(a.x + b.x, a.y + b.y)
  }

  function Sub(a: Vec2, b: Vec2): (r: Vec2)
    ensures r.x == a.x - b.x && r.y == a.y - b.y
  {
    New(a.x - b.x, a.y - b.y)
  }

  /** `Mul<T>`: multiplication by a scalar. */
  function Mul(a: Vec2, k: int): (r: Vec2)
    ensures r.x == a.x * k && r.y == a.y * k
  {
    New(a.x * k, a.y * k)
  }

  /** `sub` undoes `add`, and `add` is commutative. */
  lemma AddSubInverse(a: Vec2, b: Vec2)
    ensures Sub(Add(a, b), b) == a && Add(a, b) == Add(b, a)
  {
  }

  lemma MulDistributesOverAdd(a: Vec2, b: Vec2, k: int)
    ensures Mul(Add(a, b), k) == Add(Mul(a, k), Mul(b, k))
  {
    assert (a.x + b.x) * k == a.x * k + b.x * k;
    assert (a.y + b.y) * k == a.y * k + b.y * k;
  }

  predicate Fits(v: Vec2, w: Width) { InRange(v.x, Modulus(w)) && InRange(v.y, Modulus(w)) }

  /** `wrapping_add` for `Vec2<u8>` ... `Vec2<u128>`: each component modulo 2^bits. */
  function WrappingAdd(a: Vec2, b: Vec2, w: Width): (r: Vec2)
    requires Fits(a, w) && Fits(b, w)
    ensures Fits(r, w)
  {
    New(WrapAdd(a.x, b.x, Modulus(w)), WrapAdd(a.y, b.y, Modulus(w)))
  }

  /** Each component of `wrapping_add` is the sum modulo 2^bits. */
  lemma WrappingAddIsModular(a: Vec2, b: Vec2, w: Width)
    requires Fits(a, w) && Fits(b, w)
    ensures var r := WrappingAdd(a, b, w);
      r.x == (a.x + b.x) % Modulus(w) && r.y == (a.y + b.y) % Modulus(w)
  {
    WrapAddIsModular(a.x, b.x, Modulus(w));
    WrapAddIsModular(a.y, b.y, Modulus(w));
  }

  lemma WrappingAddCommutative(a: Vec2, b: Vec2, w: Width)
    requires Fits(a, w) && Fits(b, w)
    ensures WrappingAdd(a, b, w) == WrappingAdd(b, a, w)
  {
  }

  lemma WrappingAddAssociative(a: Vec2, b: Vec2, c: Vec2, w: Width)
    requires Fits(a, w) && Fits(b, w) && Fits(c, w)
    ensures WrappingAdd(WrappingAdd(a, b, w), c, w) == WrappingAdd(a, WrappingAdd(b, c, w), w)
  {
    WrapAddAssociative(a.x, b.x, c.x, Modulus(w));
    WrapAddAssociative(a.y, b.y, c.y, Modulus(w));
  }

  /** The crate's unit test: `(10, 20).wrapping_add((250, 245)) == (4, 9)` over `u8`. */
  lemma WrappingAddU8Example()
    ensures WrappingAdd(New(10, 20), New(250, 245), U8) == New(4, 9)
  {
  }
}
