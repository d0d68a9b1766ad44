/** Integer multiples in an abelian group given only by its operations and laws. */
module AbelianGroup {

  datatype Group<!T(!new)> = Group(zero: T, add: (T, T) -> T, neg: T -> T)

  /** Marks the elements at which a law is wanted; the laws are instantiated nowhere else. */
  ghost predicate At<T>(x: T, y: T, z: T) { true }

  ghost predicate Abelian<T(!new)>(g: Group<T>) {
    && (forall x: T, y: T, z: T {:trigger At(x, y, z)} :: At(x, y, z) ==>
          && g.add(g.add(x, y), z) == g.add(x, g.add(y, z))
          && g.add(x, y) == g.add(y, x)
          && g.add(x, g.zero) == x
          && g.add(x, g.neg(x)) == g.zero)
  }

  lemma Assoc<T(!new)>(g: Group<T>, x: T, y: T, z: T)
    requires Abelian(g)
    ensures g.add(g.add(x, y), z) == g.add(x, g.add(y, z))
  {
    assert At(x, y, z);
  }

  lemma Comm<T(!new)>(g: Group<T>, x: T, y: T)
    requires Abelian(g)
    ensures g.add(x, y) == g.add(y, x)
  {
    assert At(x, y, y);
  }

  lemma Unit<T(!new)>(g: Group<T>, x: T)
    requires Abelian(g)
    ensures g.add(x, g.zero) == x && g.add(g.zero, x) == x
    ensures g.add(x, g.neg(x)) == g.zero && g.add(g.neg(x), x) == g.zero
  {
    assert At(x, g.zero, x);
    Comm(g, x, g.zero);
    Comm(g, x, g.neg(x));
  }

  /** [n]x. */
  ghost function Times<T(!new)>(g: Group<T>, n: int, x: T): T
    decreases if n < 0 then -n else n
  {
    if n == 0 then g.zero
    else if n > 0 then g.add(Times(g, n - 1, x), x)
    else g.add(Times(g, n + 1, x), g.neg(x))
  }

  lemma TimesNext<T(!new)>(g: Group<T>, n: int, x: T)
    requires Abelian(g)
    ensures Times(g, n + 1, x) == g.add(Times(g, n, x), x)
    ensures Times(g, n - 1, x) == g.add(Times(g, n, x), g.neg(x))
  {
    if n < 0 {
      Cancel(g, Times(g, n + 1, x), g.neg(x), x);
    } else if n > 0 {
      Cancel(g, Times(g, n - 1, x), x, g.neg(x));
    }
  }

  lemma Cancel<T(!new)>(g: Group<T>, p: T, x: T, y: T)
    requires Abelian(g) && (y == g.neg(x) || x == g.neg(y))
    ensures g.add(g.add(p, x), y) == p
  {
    Assoc(g, p, x, y);
    Unit(g, x);
    Unit(g, y);
    Unit(g, p);
  }

  lemma {:induction false} TimesAdd<T(!new)>(g: Group<T>, m: int, n: int, x: T)
    requires Abelian(g)
    ensures Times(g, m + n, x) == g.add(Times(g, m, x), Times(g, n, x))
    decreases if n < 0 then -n else n
  {
    if n == 0 {
      Unit(g, Times(g, m, x));
    } else if n > 0 {
      TimesAdd(g, m, n - 1, x);
      TimesNext(g, m + n - 1, x);
      Assoc(g, Times(g, m, x), Times(g, n - 1, x), x);
    } else {
      TimesAdd(g, m, n + 1, x);
      TimesNext(g, m + n + 1, x);
      Assoc(g, Times(g, m, x), Times(g, n + 1, x), g.neg(x));
    }
  }

  lemma TimesNeg<T(!new)>(g: Group<T>, n: int, x: T)
    requires Abelian(g)
    ensures g.neg(Times(g, n, x)) == Times(g, -n, x)
  {
    var p := Times(g, n, x);
    TimesAdd(g, n, -n, x);
    Unit(g, p);
    Unit(g, Times(g, -n, x));
    Unit(g, g.neg(p));
    Assoc(g, g.neg(p), p, Times(g, -n, x));
  }

  /** (a + b) + (c + d) == (a + c) + (b + d). */
  lemma Interchange<T(!new)>(g: Group<T>, a: T, b: T, c: T, d: T)
    requires Abelian(g)
    ensures g.add(g.add(a, b), g.add(c, d)) == g.add(g.add(a, c), g.add(b, d))
  {
    Assoc(g, a, b, g.add(c, d));
    Assoc(g, b, c, d);
    Comm(g, b, c);
    Assoc(g, c, b, d);
    Assoc(g, a, c, g.add(b, d));
  }

  /** [h]x + [s]y. */
  ghost function Combine<T(!new)>(g: Group<T>, h: int, x: T, s: int, y: T): T {
    g.add(Times(g, h, x), Times(g, s, y))
  }

  /** Combinations add coefficient by coefficient. */
  lemma CombineAdd<T(!new)>(g: Group<T>, h: int, s: int, h': int, s': int, x: T, y: T)
    requires Abelian(g)
    ensures g.add(Combine(g, h, x, s, y), Combine(g, h', x, s', y)) == Combine(g, h + h', x, s + s', y)
  {
    Interchange(g, Times(g, h, x), Times(g, s, y), Times(g, h', x), Times(g, s', y));
    TimesAdd(g, h, h', x);
    TimesAdd(g, s, s', y);
  }
}
