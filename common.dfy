/** Shared vocabulary of the object-FIFO lowering model: tiles, fifo
    identities, ports and the flattened per-core programs the pass walks. */
module Common {

  /** A tile is identified by an integer handle (its flattened grid coordinate). */
  type Tile = int

  /** A fifo is either one declared in the input program (by position), or the
      consumer half created for the `consumer`-th consumer of a split fifo. */
  datatype FifoId = Declared(index: nat) | ConsumerHalf(parent: nat, consumer: nat)

  datatype Option<T> = None | Some(value: T)

  datatype Result<T, E> = Success(value: T) | Failure(error: E)

  /** The two sides of an object FIFO an acquire or release names. */
  datatype Port = Produce | Consume

  /** One step of a core's program, in the order the pass walks it. A subview
      access names the acquire that produced its subview by that acquire's
      position in the same program. */
  datatype Event =
    | Acquire(fifo: FifoId, port: Port, count: int)
    | Release(fifo: FifoId, port: Port, count: int)
    | SubviewAccess(acquire: nat, index: int)
    | Other

  /** A core: the tile it runs on and its program, flattened in walk order. */
  datatype Core = Core(tile: Tile, program: seq<Event>)

  function Max(a: int, b: int): int {
    if a >= b then a else b
  }
}

/** Integer facts the solver does not find on its own: uniqueness of
    Euclidean division and its consequences for `%`. */
module Arith {

  lemma MulSign(k: int, d: int)
    requires d > 0
    ensures k >= 1 ==> k * d >= d
    ensures k <= -1 ==> k * d <= -d
  {
    if k >= 1 {
      assert k * d == (k - 1) * d + d;
      assert (k - 1) * d >= 0;
    } else if k <= -1 {
      assert k * d == (k + 1) * d - d;
      assert (k + 1) * d <= 0;
    }
  }

  lemma MulBound(k: int, d: int)
    requires d > 0 && -d < k * d < d
    ensures k == 0
  {
    MulSign(k, d);
  }

  lemma DivModUnique(a: int, d: int, q: int, r: int)
    requires d > 0 && a == q * d + r && 0 <= r < d
    ensures a / d == q && a % d == r
  {
    var q0, r0 := a / d, a % d;
    assert (q - q0) * d == r0 - r;
    MulBound(q - q0, d);
  }

  lemma MulMod(g: int, k: int)
    requires g > 0
    ensures (g * k) % g == 0 && (g * k) / g == k
  {
    DivModUnique(g * k, g, k, 0);
  }

  lemma ModAddLeft(x: int, y: int, d: int)
    requires d > 0
    ensures (x % d + y) % d == (x + y) % d
  {
    DivModUnique(x + y, d, x / d + (x % d + y) / d, (x % d + y) % d);
  }

  lemma ModSmall(x: int, d: int)
    requires 0 <= x < d
    ensures x % d == x
  {
    DivModUnique(x, d, 0, x);
  }

  lemma ModMultiple(x: int, k: int, d: int)
    requires d > 0
    ensures (x + k * d) % d == x % d
  {
    DivModUnique(x + k * d, d, x / d + k, x % d);
  }

  /** Residues of two integers closer together than the modulus differ. */
  lemma ModDistinct(x: int, y: int, d: int)
    requires d > 0 && 0 < y - x < d
    ensures x % d != y % d
  {
    if x % d == y % d {
      assert (y / d - x / d) * d == y - x;
      MulBound(y / d - x / d, d);
    }
  }

  lemma DivMultiple(x: int, k: int, d: int)
    requires d > 0
    ensures (x + k * d) / d == x / d + k
  {
    DivModUnique(x + k * d, d, x / d + k, x % d);
  }

  lemma MulAssoc(a: int, b: int, c: int)
    ensures (a * b) * c == a * (b * c)
  {
  }

  /** An exact division recovers the dividend. */
  lemma DivExact(m: int, d: int)
    requires d > 0 && m % d == 0
    ensures m == d * (m / d)
  {
    DivModSplit(m, d);
  }

  lemma DivModSplit(a: int, d: int)
    requires d > 0
    ensures a == (a / d) * d + a % d
  {
  }
}
