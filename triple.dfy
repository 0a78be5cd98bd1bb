/** `Triple`: an immutable triple of possibly-`null` values. Component
    `equals` is modelled by Dafny equality and component `hashCode` by a
    hash function passed in. */
module Triples {
  import opened Machine
  import opened Outcomes

  datatype Triple<A, B, C> = Triple(first: Option<A>, second: Option<B>, third: Option<C>)

  /** `of`. */
  function Of<A, B, C>(a: Option<A>, b: Option<B>, c: Option<C>): (t: Triple<A, B, C>)
    ensures t.first == a && t.second == b && t.third == c
  {
    Triple(a, b, c)
  }

  /** `withFirst`: a new triple with the first value replaced. */
  function WithFirst<A, B, C>(t: Triple<A, B, C>, a: Option<A>): (r: Triple<A, B, C>)
    ensures r.first == a && r.second == t.second && r.third == t.third
  {
    Triple(a, t.second, t.third)
  }

  /** `withSecond`. */
  function WithSecond<A, B, C>(t: Triple<A, B, C>, b: Option<B>): (r: Triple<A, B, C>)
    ensures r.first == t.first && r.second == b && r.third == t.third
  {
    Triple(t.first, b, t.third)
  }

  /** `withThrid`. */
  function WithThird<A, B, C>(t: Triple<A, B, C>, c: Option<C>): (r: Triple<A, B, C>)
    ensures r.first == t.first && r.second == t.second && r.third == c
  {
    Triple(t.first, t.second, c)
  }

  /** Null-safe equality of one component. */
  predicate SameComponent<T(==)>(x: Option<T>, y: Option<T>) {
    if x.Some? then y.Some? && x.value == y.value else y.None?
  }

  /** `equals`: `null` is unequal; otherwise component by component. */
  function Equals<A(==), B(==), C(==)>(t: Triple<A, B, C>, o: Option<Triple<A, B, C>>): (r: bool)
    ensures r <==> o == Some(t)
  {
    o.Some? && SameComponent(t.first, o.value.first) && SameComponent(t.second, o.value.second)
      && SameComponent(t.third, o.value.third)
  }

  /** A component's hash, 0 for `null`. */
  function ComponentHash<T>(x: Option<T>, hash: T -> int32): int32 {
    if x.Some? then hash(x.value) else 0
  }

  /** `hashCode`: `31 * (31 * h1 + h2) + h3` in 32-bit arithmetic. */
  function HashCode<A, B, C>(t: Triple<A, B, C>, ha: A -> int32, hb: B -> int32, hc: C -> int32): (r: int32)
    ensures r == Wrap32(961 * ComponentHash(t.first, ha) + 31 * ComponentHash(t.second, hb) + ComponentHash(t.third, hc))
  {
    var h1, h2, h3 := ComponentHash(t.first, ha), ComponentHash(t.second, hb), ComponentHash(t.third, hc);
    HashStep(31 * h1 + h2, h3);
    assert 31 * (31 * h1 + h2) + h3 == 961 * h1 + 31 * h2 + h3;
    Wrap32(31 * Wrap32(31 * h1 + h2) + h3)
  }

  /** `equals` is reflexive and symmetric, and equal triples hash alike. */
  lemma EqualsLaws<A, B, C>(t: Triple<A, B, C>, u: Triple<A, B, C>, ha: A -> int32, hb: B -> int32, hc: C -> int32)
    ensures Equals(t, Some(t))
    ensures Equals(t, Some(u)) == Equals(u, Some(t))
    ensures Equals(t, Some(u)) ==> HashCode(t, ha, hb, hc) == HashCode(u, ha, hb, hc)
    ensures !Equals(t, None)
  {
  }

  /** Replacing a component twice keeps only the second value, and replacing
      it with its own value changes nothing. */
  lemma ReplaceLaws<A, B, C>(t: Triple<A, B, C>, a1: Option<A>, a2: Option<A>, b1: Option<B>, b2: Option<B>, c1: Option<C>, c2: Option<C>)
    ensures WithFirst(WithFirst(t, a1), a2) == WithFirst(t, a2) && WithFirst(t, t.first) == t
    ensures WithSecond(WithSecond(t, b1), b2) == WithSecond(t, b2) && WithSecond(t, t.second) == t
    ensures WithThird(WithThird(t, c1), c2) == WithThird(t, c2) && WithThird(t, t.third) == t
    ensures WithThird(WithSecond(WithFirst(t, a1), b1), c1) == Of(a1, b1, c1)
  {
  }
}
