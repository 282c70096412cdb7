/** The feature space both segmenters cluster in: a four-component vector per
    capture record (time gap, app change, title indicator, embedding
    distance), the weighted Euclidean distance with weights 0.4/0.3/0.2/0.1,
    and the eps-neighbourhood query of the DBSCAN-style pass.

    The distance is `sqrt(sum w_i * (a_i - b_i)^2)` in both code bases and is
    only ever compared with `<= eps`. For a non-negative sum d,
    `sqrt(d) <= eps` holds exactly when `eps >= 0 && d <= eps * eps`, so the
    model compares the squared distance and never takes a root. */
module Metric {
  import opened Seqs

  datatype Features = Features(time: real, app: real, title: real, embed: real)

  function Sq(x: real): (r: real)
    ensures r >= 0.0
  {
    x * x
  }

  /** The weighted sum under the square root of `distance`. */
  function SqDistance(a: Features, b: Features): (d: real)
    ensures d >= 0.0
  {
    0.4 * Sq(a.time - b.time) + 0.3 * Sq(a.app - b.app)
      + 0.2 * Sq(a.title - b.title) + 0.1 * Sq(a.embed - b.embed)
  }

  /** `distance(a, b) <= eps`. */
  predicate Near(a: Features, b: Features, eps: real) {
    eps >= 0.0 && SqDistance(a, b) <= eps * eps
  }

  /** The distance is symmetric, so closeness is too. */
  lemma NearSymmetric(a: Features, b: Features, eps: real)
    ensures SqDistance(a, b) == SqDistance(b, a)
    ensures Near(a, b, eps) <==> Near(b, a, eps)
  {
    assert Sq(a.time - b.time) == Sq(b.time - a.time);
    assert Sq(a.app - b.app) == Sq(b.app - a.app);
    assert Sq(a.title - b.title) == Sq(b.title - a.title);
    assert Sq(a.embed - b.embed) == Sq(b.embed - a.embed);
  }

  /** The distance of a vector to itself is zero, so every point is within any
      non-negative eps of itself. */
  lemma NearSelf(a: Features, eps: real)
    ensures SqDistance(a, a) == 0.0
    ensures Near(a, a, eps) <==> eps >= 0.0
  {
  }

  /** The hard-split sentinel separates: a point whose time feature is 10.0 is
      never within eps <= 5 (the default is 0.3) of a point whose time feature
      is at most 1.0, because 0.4 * (10 - 1)^2 = 32.4 > 25. */
  lemma HardSplitSeparates(a: Features, b: Features, eps: real)
    requires a.time == 10.0 && b.time <= 1.0
    requires eps <= 5.0
    ensures !Near(a, b, eps) && !Near(b, a, eps)
  {
    var dt := a.time - b.time;
    assert dt >= 9.0;
    assert Sq(dt) >= 81.0 by {
      assert dt * dt >= 9.0 * dt;
    }
    assert SqDistance(a, b) >= 32.4;
    if eps >= 0.0 {
      assert eps * eps <= 25.0 by {
        assert eps * eps <= 5.0 * eps;
      }
    }
    NearSymmetric(a, b, eps);
  }

  predicate Increasing(s: seq<nat>) {
    forall i, j :: 0 <= i < j < |s| ==> s[i] < s[j]
  }

  /** The indices below k whose point is within eps of c, in ascending order. */
  function RegionUpTo(fs: seq<Features>, c: Features, eps: real, k: nat): (r: seq<nat>)
    requires k <= |fs|
    ensures forall t :: 0 <= t < |r| ==> r[t] < k
    ensures forall j :: 0 <= j < k ==> (j in r <==> Near(c, fs[j], eps))
    ensures Increasing(r)
    decreases k
  {
    if k == 0 then []
    else
      var r := RegionUpTo(fs, c, eps, k - 1);
      if Near(c, fs[k - 1], eps) then r + [k - 1] else r
  }

  /** What `region_query(index)` / `regionQuery(index)` returns: every index whose
      point is within eps of point `index`, in ascending order. */
  function Region(fs: seq<Features>, eps: real, index: nat): (r: seq<nat>)
    requires index < |fs|
    ensures forall t :: 0 <= t < |r| ==> r[t] < |fs|
    ensures forall j :: 0 <= j < |fs| ==> (j in r <==> Near(fs[index], fs[j], eps))
    ensures Increasing(r)
  {
    RegionUpTo(fs, fs[index], eps, |fs|)
  }

  lemma IncreasingDistinct(s: seq<nat>)
    requires Increasing(s)
    ensures Distinct(s)
  {
  }

  /** The neighbourhood of a point contains the point itself whenever eps >= 0. */
  lemma RegionHasSelf(fs: seq<Features>, eps: real, index: nat)
    requires index < |fs| && eps >= 0.0
    ensures index in Region(fs, eps, index)
    ensures |Region(fs, eps, index)| >= 1
  {
    NearSelf(fs[index], eps);
  }

  /** The neighbourhood query as the loop both code bases run. */
  method RegionQuery(fs: seq<Features>, eps: real, index: nat) returns (neighbors: seq<nat>)
    requires index < |fs|
    ensures neighbors == Region(fs, eps, index)
  {
    neighbors := [];
    var i := 0;
    while i < |fs|
      invariant 0 <= i <= |fs|
      invariant neighbors == RegionUpTo(fs, fs[index], eps, i)
    {
      if Near(fs[index], fs[i], eps) {
        neighbors := neighbors + [i];
      }
      i := i + 1;
    }
  }

  /** A core point has at least minSamples points (itself included) within eps. */
  predicate IsCore(fs: seq<Features>, eps: real, minSamples: int, k: nat)
    requires k < |fs|
  {
    |Region(fs, eps, k)| >= minSamples
  }

  /** A point within eps of some core point. */
  predicate Reachable(fs: seq<Features>, eps: real, minSamples: int, k: nat)
    requires k < |fs|
  {
    exists m :: 0 <= m < |fs| && IsCore(fs, eps, minSamples, m) && Near(fs[m], fs[k], eps)
  }

  /** The points a DBSCAN pass places in some cluster: the core points and the
      border points next to them. */
  predicate Clusterable(fs: seq<Features>, eps: real, minSamples: int, k: nat)
    requires k < |fs|
  {
    IsCore(fs, eps, minSamples, k) || Reachable(fs, eps, minSamples, k)
  }
}
