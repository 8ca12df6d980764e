/** The RGB colour of the renderer. Every channel is kept in [0, 255]: the
    constructor and each setter clamp their argument into that range. */
module Colors {

  const Lo: real := 0.0
  const Hi: real := 255.0

  function Dist(a: real, b: real): real { if a < b then b - a else a - b }

  predicate InRange(v: real) { Lo <= v <= Hi }

  /** std::clamp(v, lo, hi): the point of [lo, hi] nearest to v. */
  function Clamp(v: real, lo: real, hi: real): (r: real)
    requires lo <= hi
    ensures lo <= r <= hi
    ensures forall u :: lo <= u <= hi ==> Dist(r, v) <= Dist(u, v)
  {
    if v < lo then lo else if hi < v then hi else v
  }

  /** Clamping keeps a value already in range, and sends one below or above
      the range to the nearer bound. */
  lemma ClampCases(v: real, lo: real, hi: real)
    requires lo <= hi
    ensures lo <= v <= hi ==> Clamp(v, lo, hi) == v
    ensures v < lo ==> Clamp(v, lo, hi) == lo
    ensures hi < v ==> Clamp(v, lo, hi) == hi
  {
  }

  /** Clamping twice is clamping once. */
  lemma ClampIdempotent(v: real, lo: real, hi: real)
    requires lo <= hi
    ensures Clamp(Clamp(v, lo, hi), lo, hi) == Clamp(v, lo, hi)
  {
  }

  class Color {
    var r: real
    var g: real
    var b: real

    ghost predicate Valid()
      reads this
    {
      InRange(r) && InRange(g) && InRange(b)
    }

    constructor (r: real, g: real, b: real)
      ensures Valid()
      ensures this.r == Clamp(r, Lo, Hi)
      ensures this.g == Clamp(g, Lo, Hi)
      ensures this.b == Clamp(b, Lo, Hi)
    {
      this.r := Clamp(r, Lo, Hi);
      this.g := Clamp(g, Lo, Hi);
      this.b := Clamp(b, Lo, Hi);
    }

    /** The red channel, always in [0, 255]. */
    function R(): (v: real)
      reads this
      requires Valid()
      ensures InRange(v)
    {
      r
    }

    /** The green channel, always in [0, 255]. */
    function G(): (v: real)
      reads this
      requires Valid()
      ensures InRange(v)
    {
      g
    }

    /** The blue channel, always in [0, 255]. */
    function B(): (v: real)
      reads this
      requires Valid()
      ensures InRange(v)
    {
      b
    }

    method SetR(v: real)
      requires Valid()
      modifies this
      ensures Valid()
      ensures R() == Clamp(v, Lo, Hi)
      ensures G() == old(G()) && B() == old(B())
    {
      r := Clamp(v, Lo, Hi);
    }

    method SetG(v: real)
      requires Valid()
      modifies this
      ensures Valid()
      ensures G() == Clamp(v, Lo, Hi)
      ensures R() == old(R()) && B() == old(B())
    {
      g := Clamp(v, Lo, Hi);
    }

    method SetB(v: real)
      requires Valid()
      modifies this
      ensures Valid()
      ensures B() == Clamp(v, Lo, Hi)
      ensures R() == old(R()) && G() == old(G())
    {
      b := Clamp(v, Lo, Hi);
    }
  }

  /** Feeding a getter's value back to its setter changes nothing: the stored
      channel is its own clamp. */
  lemma SetterOfGetterIsIdentity(c: Color)
    requires c.Valid()
    ensures Clamp(c.R(), Lo, Hi) == c.R()
    ensures Clamp(c.G(), Lo, Hi) == c.G()
    ensures Clamp(c.B(), Lo, Hi) == c.B()
  {
  }

  /** r(r()), g(g()) and b(b()) leave the colour as it was. */
  method ReassignChannels(c: Color)
    requires c.Valid()
    modifies c
    ensures c.Valid() && c.R() == old(c.R()) && c.G() == old(c.G()) && c.B() == old(c.B())
  {
    SetterOfGetterIsIdentity(c);
    c.SetR(c.R());
    c.SetG(c.G());
    c.SetB(c.B());
  }
}
