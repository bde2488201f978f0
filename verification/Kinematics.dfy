/**
 Forward kinematics over a table of joints whose parents precede them. Rotations and rigid motions
 are any monoid or group of transforms: the proofs are about which joints are composed, in which order.
 */
module Kinematics {
  import opened Bytes

  // ---- Transforms ----

  datatype Monoid<!M(!new)> = Monoid(one: M, mul: (M, M) -> M)

  ghost predicate IsMonoid<M(!new)>(m: Monoid<M>) {
    && (forall a :: m.mul(m.one, a) == a)
    && (forall a :: m.mul(a, m.one) == a)
    && forall a, b, c :: m.mul(m.mul(a, b), c) == m.mul(a, m.mul(b, c))
  }

  datatype Group<!M(!new)> = Group(times: Monoid<M>, inverse: M -> M)

  ghost predicate IsGroup<M(!new)>(g: Group<M>) {
    && IsMonoid(g.times)
    && (forall a :: g.times.mul(g.inverse(a), a) == g.times.one)
    && forall a :: g.times.mul(a, g.inverse(a)) == g.times.one
  }

  /** The transforms composed from the outermost in. */
  function Product<M(!new)>(m: Monoid<M>, xs: seq<M>): M {
    if xs == [] then m.one else m.mul(Product(m, xs[..|xs| - 1]), xs[|xs| - 1])
  }

  lemma {:induction false} ProductAppend<M(!new)>(m: Monoid<M>, a: seq<M>, b: seq<M>)
    requires IsMonoid(m)
    ensures Product(m, a + b) == m.mul(Product(m, a), Product(m, b))
  {
    if b == [] {
      assert a + b == a;
    } else {
      var front, last := b[..|b| - 1], b[|b| - 1];
      assert (a + b)[..|a + b| - 1] == a + front;
      ProductAppend(m, a, front);
    }
  }

  /** Composing the products of consecutive pieces is composing the whole. */
  lemma {:induction false} ProductOfPieces<M(!new)>(m: Monoid<M>, pieces: seq<seq<M>>)
    requires IsMonoid(m)
    ensures Product(m, Products(m, pieces)) == Product(m, Concat(pieces))
  {
    if pieces != [] {
      var rest := pieces[1..];
      ProductOfPieces(m, rest);
      assert Products(m, pieces) == [Product(m, pieces[0])] + Products(m, rest);
      ProductAppend(m, [Product(m, pieces[0])], Products(m, rest));
      ProductAppend(m, pieces[0], Concat(rest));
      ProductOfOne(m, Product(m, pieces[0]));
    }
  }

  lemma ProductOfOne<M(!new)>(m: Monoid<M>, x: M)
    requires IsMonoid(m)
    ensures Product(m, [x]) == x
  {
    assert [x][..0] == [];
  }

  function Products<M(!new)>(m: Monoid<M>, pieces: seq<seq<M>>): (r: seq<M>)
    ensures |r| == |pieces|
  {
    seq(|pieces|, i requires 0 <= i < |pieces| => Product(m, pieces[i]))
  }

  /** Rotations acting on offsets. */
  datatype Space<!G(!new), !V(!new)> = Space(rotations: Monoid<G>, offsets: Monoid<V>, turn: (G, V) -> V)

  ghost predicate IsSpace<G(!new), V(!new)>(s: Space<G, V>) {
    && IsMonoid(s.rotations) && IsMonoid(s.offsets)
    && (forall v :: s.turn(s.rotations.one, v) == v)
    && (forall g :: s.turn(g, s.offsets.one) == s.offsets.one)
    && (forall g, h, v :: s.turn(s.rotations.mul(g, h), v) == s.turn(g, s.turn(h, v)))
    && forall g, v, w :: s.turn(g, s.offsets.mul(v, w)) == s.offsets.mul(s.turn(g, v), s.turn(g, w))
  }

  datatype Rigid<+G, +V> = Rigid(rotation: G, offset: V)

  /** Rigid motions compose as a child's offset, stated in its parent's frame. */
  function Motions<G(!new), V(!new)>(s: Space<G, V>): Monoid<Rigid<G, V>> {
    Monoid(Rigid(s.rotations.one, s.offsets.one),
           (a: Rigid<G, V>, b: Rigid<G, V>) =>
             Rigid(s.rotations.mul(a.rotation, b.rotation), s.offsets.mul(a.offset, s.turn(a.rotation, b.offset))))
  }

  lemma Associates<M(!new)>(m: Monoid<M>, a: M, b: M, c: M)
    requires IsMonoid(m)
    ensures m.mul(m.mul(a, b), c) == m.mul(a, m.mul(b, c))
  {
  }

  lemma Turns<G(!new), V(!new)>(s: Space<G, V>, g: G, h: G, v: V, w: V)
    requires IsSpace(s)
    ensures s.turn(s.rotations.mul(g, h), v) == s.turn(g, s.turn(h, v))
    ensures s.turn(g, s.offsets.mul(v, w)) == s.offsets.mul(s.turn(g, v), s.turn(g, w))
  {
    hide IsMonoid;
  }

  lemma MotionsAssociate<G(!new), V(!new)>(s: Space<G, V>, a: Rigid<G, V>, b: Rigid<G, V>, c: Rigid<G, V>)
    requires IsSpace(s)
    ensures var m := Motions(s); m.mul(m.mul(a, b), c) == m.mul(a, m.mul(b, c))
  {
    assert IsMonoid(s.rotations) && IsMonoid(s.offsets);
    hide IsSpace, IsMonoid;
    Associates(s.rotations, a.rotation, b.rotation, c.rotation);
    Turns(s, a.rotation, b.rotation, c.offset, c.offset);
    Turns(s, a.rotation, b.rotation, b.offset, s.turn(b.rotation, c.offset));
    Associates(s.offsets, a.offset, s.turn(a.rotation, b.offset), s.turn(a.rotation, s.turn(b.rotation, c.offset)));
  }

  lemma MotionsRest<G(!new), V(!new)>(s: Space<G, V>, a: Rigid<G, V>)
    requires IsSpace(s)
    ensures var m := Motions(s); m.mul(m.one, a) == a && m.mul(a, m.one) == a
  {
    assert s.turn(s.rotations.one, a.offset) == a.offset && s.turn(a.rotation, s.offsets.one) == s.offsets.one;
  }

  lemma MotionsCompose<G(!new), V(!new)>(s: Space<G, V>)
    requires IsSpace(s)
    ensures IsMonoid(Motions(s))
  {
    hide IsSpace;
    var m := Motions(s);
    forall a: Rigid<G, V>
      ensures m.mul(m.one, a) == a && m.mul(a, m.one) == a
    {
      MotionsRest(s, a);
    }
    forall a: Rigid<G, V>, b: Rigid<G, V>, c: Rigid<G, V>
      ensures m.mul(m.mul(a, b), c) == m.mul(a, m.mul(b, c))
    {
      MotionsAssociate(s, a, b, c);
    }
  }

  // ---- Joints ----

  /** Every joint's parent comes before it; a negative parent is none. */
  predicate Ordered(parents: seq<int>) {
    forall j :: 0 <= j < |parents| ==> parents[j] < j
  }

  predicate Within(joints: seq<nat>, bound: nat) {
    forall i :: 0 <= i < |joints| ==> joints[i] < bound
  }

  /** The joints from the root down to `j`. */
  function Chain(parents: seq<int>, j: nat): (r: seq<nat>)
    requires Ordered(parents) && j < |parents|
    ensures Within(r, j + 1)
    ensures r != [] && r[|r| - 1] == j
  {
    Above(parents, j) + [j]
  }

  /** The joints above `j`, from the root down. */
  function Above(parents: seq<int>, j: nat): (r: seq<nat>)
    requires Ordered(parents) && j < |parents|
    ensures Within(r, j)
  {
    if parents[j] < 0 then [] else Above(parents, parents[j]) + [parents[j]]
  }

  /** What a table gives along a list of joints. */
  function Along<M>(table: nat -> M, joints: seq<nat>): (r: seq<M>)
    ensures |r| == |joints|
  {
    seq(|joints|, i requires 0 <= i < |joints| => table(joints[i]))
  }

  lemma AlongAppend<M>(table: nat -> M, a: seq<nat>, b: seq<nat>)
    ensures Along(table, a + b) == Along(table, a) + Along(table, b)
  {
  }

  /** Two tables that agree along a list give the same along it. */
  lemma AlongAgrees<M>(one: nat -> M, other: nat -> M, joints: seq<nat>)
    requires forall j :: j in joints ==> one(j) == other(j)
    ensures Along(one, joints) == Along(other, joints)
  {
  }
}
