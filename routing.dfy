/**
 * pick_recipient: the weighted draw of the receiver that gets the next lead.
 * The pseudo-random generator is replaced by the integer draw it produces.
 */
module Routing {
  import opened Wrappers
  import opened ConfigLoader

  /** The receivers that can be drawn: those with a strictly positive share, in configuration order. */
  function Positive(rs: seq<Receiver>): (ps: seq<Receiver>)
    ensures |ps| <= |rs|
    ensures forall k :: 0 <= k < |ps| ==> ps[k].pourcentage > 0
    ensures forall k :: 0 <= k < |ps| ==> ps[k] in rs
    ensures ps == [] <==> forall k :: 0 <= k < |rs| ==> rs[k].pourcentage <= 0
  {
    if rs == [] then []
    else (if rs[0].pourcentage > 0 then [rs[0]] else []) + Positive(rs[1..])
  }

  /**
   * The index random.choices returns for one draw: bisect_right over the running
   * totals of the weights, searched in [0, n - 1], so the first entry whose running
   * total exceeds d, and the last entry when none does.
   */
  function Bisect(ps: seq<Receiver>, d: int): (i: nat)
    requires |ps| > 0
    ensures i < |ps|
  {
    if |ps| == 1 || d < ps[0].pourcentage then 0 else 1 + Bisect(ps[1..], d - ps[0].pourcentage)
  }

  /**
   * pick_recipient with the draw d standing for random() * total cut to an integer,
   * 0 <= d < Total(Positive(cfg.receivers)).
   */
  function PickRecipient(cfg: Balancing, defaultTo: string, d: int): (to: string)
    ensures !cfg.enabled ==> to == defaultTo
    ensures (forall k :: 0 <= k < |cfg.receivers| ==> cfg.receivers[k].pourcentage <= 0) ==> to == defaultTo
    ensures cfg.enabled && (exists k :: 0 <= k < |cfg.receivers| && cfg.receivers[k].pourcentage > 0) ==>
      exists k :: 0 <= k < |cfg.receivers| && cfg.receivers[k].pourcentage > 0 && cfg.receivers[k].email == to
  {
    if !cfg.enabled then defaultTo
    else
      var recs := Positive(cfg.receivers);
      if recs == [] then defaultTo
      else
        var r := recs[Bisect(recs, d)];
        assert r in cfg.receivers;
        r.email
  }

  // ---------------------------------------------------------------------------
  // The drawable receivers
  // ---------------------------------------------------------------------------

  lemma {:induction false} PositiveAppend(a: seq<Receiver>, b: seq<Receiver>)
    ensures Positive(a + b) == Positive(a) + Positive(b)
  {
    if a == [] {
      assert a + b == b;
    } else {
      assert (a + b)[0] == a[0];
      assert (a + b)[1..] == a[1..] + b;
      PositiveAppend(a[1..], b);
    }
  }

  /**
   * Every positive-share receiver is drawable: configuration entry k sits in the
   * drawable list at the number of positive-share entries before it.
   */
  lemma {:induction false} PositiveIndex(rs: seq<Receiver>, k: nat)
    requires k < |rs| && rs[k].pourcentage > 0
    ensures |Positive(rs[..k])| < |Positive(rs)|
    ensures Positive(rs)[|Positive(rs[..k])|] == rs[k]
  {
    assert rs == rs[..k] + ([rs[k]] + rs[k + 1..]);
    PositiveAppend(rs[..k], [rs[k]] + rs[k + 1..]);
    PositiveAppend([rs[k]], rs[k + 1..]);
    assert Positive([rs[k]]) == [rs[k]] by {
      assert [rs[k]][1..] == [];
    }
  }

  /** Positive-share receivers keep their configuration order among the drawable ones. */
  lemma {:induction false} PositiveIndexOrder(rs: seq<Receiver>, k1: nat, k2: nat)
    requires k1 < k2 < |rs| && rs[k1].pourcentage > 0
    ensures |Positive(rs[..k1])| < |Positive(rs[..k2])|
  {
    assert rs[..k2] == rs[..k1] + rs[k1..k2];
    PositiveAppend(rs[..k1], rs[k1..k2]);
    assert rs[k1..k2] == [rs[k1]] + rs[k1 + 1..k2];
    PositiveAppend([rs[k1]], rs[k1 + 1..k2]);
    assert Positive([rs[k1]]) == [rs[k1]] by {
      assert [rs[k1]][1..] == [];
    }
  }

  /** The weights of the drawable receivers add up to the total that normalisation divides by. */
  lemma {:induction false} PositiveWeightsTotal(rs: seq<Receiver>)
    ensures Total(Positive(rs)) == PositiveTotal(rs)
  {
    if rs != [] {
      PositiveWeightsTotal(rs[1..]);
      if rs[0].pourcentage > 0 {
        assert Positive(rs) == [rs[0]] + Positive(rs[1..]);
        assert Total(Positive(rs)) == rs[0].pourcentage + Total(Positive(rs[1..]));
      } else {
        assert Positive(rs) == Positive(rs[1..]);
      }
    }
  }

  // ---------------------------------------------------------------------------
  // Each drawable receiver owns as many draws as its share
  // ---------------------------------------------------------------------------

  ghost predicate AllPositive(ps: seq<Receiver>)
  {
    forall k :: 0 <= k < |ps| ==> ps[k].pourcentage > 0
  }

  lemma {:induction false} PrefixTotalBounds(ps: seq<Receiver>, j: nat)
    requires AllPositive(ps)
    requires j <= |ps|
    ensures 0 <= Total(ps[..j]) <= Total(ps)
    ensures j < |ps| ==> Total(ps[..j + 1]) == Total(ps[..j]) + ps[j].pourcentage
  {
    assert ps == ps[..j] + ps[j..];
    TotalAppend(ps[..j], ps[j..]);
    NonNegativeTotal(ps[..j]);
    NonNegativeTotal(ps[j..]);
    if j < |ps| {
      assert ps[..j + 1] == ps[..j] + [ps[j]];
      TotalAppend(ps[..j], [ps[j]]);
    }
  }

  lemma {:induction false} NonNegativeTotal(ps: seq<Receiver>)
    requires AllPositive(ps)
    ensures Total(ps) >= 0
    ensures ps != [] ==> Total(ps) >= ps[0].pourcentage
  {
    if ps != [] {
      NonNegativeTotal(ps[1..]);
    }
  }

  /** Draw d selects entry j exactly when d lies in [running total before j, running total through j). */
  lemma {:induction false} BisectInterval(ps: seq<Receiver>, d: int, j: nat)
    requires AllPositive(ps)
    requires 0 <= d < Total(ps)
    requires j < |ps|
    ensures Bisect(ps, d) == j <==> Total(ps[..j]) <= d < Total(ps[..j + 1])
  {
    var w := ps[0].pourcentage;
    if j > 0 {
      assert ps[..j][1..] == ps[1..][..j - 1];
      assert ps[..j + 1][1..] == ps[1..][..j];
      assert Total(ps[..j]) == w + Total(ps[1..][..j - 1]);
      assert Total(ps[..j + 1]) == w + Total(ps[1..][..j]);
    }
    if |ps| == 1 {
      assert ps[..1] == ps;
    } else if d < w {
      if j > 0 {
        PrefixTotalBounds(ps[1..], j - 1);
      }
    } else {
      assert Total(ps) == w + Total(ps[1..]);
      if j > 0 {
        BisectInterval(ps[1..], d - w, j - 1);
      }
    }
  }

  /** The number of draws 0 <= d < n that select entry j. */
  function Draws(ps: seq<Receiver>, j: nat, n: int): nat
    requires |ps| > 0
    decreases n
  {
    if n <= 0 then 0 else Draws(ps, j, n - 1) + (if Bisect(ps, n - 1) == j then 1 else 0)
  }

  /** Below the total, the draws counted so far for j are those of [lo, hi) below n. */
  lemma {:induction false} DrawsSoFar(ps: seq<Receiver>, j: nat, n: nat, lo: int, hi: int)
    requires AllPositive(ps)
    requires j < |ps|
    requires n <= Total(ps)
    requires lo == Total(ps[..j]) && hi == Total(ps[..j + 1])
    ensures Draws(ps, j, n) == (if n <= lo then 0 else if n >= hi then hi - lo else n - lo)
  {
    PrefixTotalBounds(ps, j);
    PrefixTotalBounds(ps, j + 1);
    if n > 0 {
      DrawsSoFar(ps, j, n - 1, lo, hi);
      BisectInterval(ps, n - 1, j);
    }
  }

  /** Over all draws 0 <= d < Total(ps), entry j is selected for exactly ps[j].pourcentage of them. */
  lemma {:induction false} DrawsPerEntry(ps: seq<Receiver>, j: nat)
    requires AllPositive(ps)
    requires j < |ps|
    ensures Draws(ps, j, Total(ps)) == ps[j].pourcentage
  {
    PrefixTotalBounds(ps, j);
    PrefixTotalBounds(ps, j + 1);
    NonNegativeTotal(ps);
    DrawsSoFar(ps, j, Total(ps), Total(ps[..j]), Total(ps[..j + 1]));
  }

  /**
   * The weighted draw of pick_recipient: with balancing enabled, the j-th receiver
   * with a positive share is returned for exactly as many of the draws
   * 0 <= d < Σ max(0, share) as its share.
   */
  lemma {:induction false} PickDistribution(cfg: Balancing, defaultTo: string, j: nat)
    requires cfg.enabled
    requires j < |Positive(cfg.receivers)|
    ensures var ps := Positive(cfg.receivers);
      && Draws(ps, j, PositiveTotal(cfg.receivers)) == ps[j].pourcentage
      && forall d :: 0 <= d < PositiveTotal(cfg.receivers) && Bisect(ps, d) == j ==>
           PickRecipient(cfg, defaultTo, d) == ps[j].email
  {
    PositiveWeightsTotal(cfg.receivers);
    DrawsPerEntry(Positive(cfg.receivers), j);
  }

  /**
   * The weighted draw stated per configuration entry: with balancing enabled, a
   * receiver with a positive share is returned for exactly as many of the draws
   * 0 <= d < Σ max(0, share) as its share.
   */
  lemma {:induction false} PickShare(cfg: Balancing, defaultTo: string, k: nat)
    requires cfg.enabled
    requires k < |cfg.receivers| && cfg.receivers[k].pourcentage > 0
    ensures var ps, j := Positive(cfg.receivers), |Positive(cfg.receivers[..k])|;
      && j < |ps|
      && Draws(ps, j, PositiveTotal(cfg.receivers)) == cfg.receivers[k].pourcentage
      && forall d :: 0 <= d < PositiveTotal(cfg.receivers) && Bisect(ps, d) == j ==>
           PickRecipient(cfg, defaultTo, d) == cfg.receivers[k].email
  {
    PositiveIndex(cfg.receivers, k);
    PickDistribution(cfg, defaultTo, |Positive(cfg.receivers[..k])|);
  }

  /**
   * After loading, a configuration whose shares came out non-negative is drawn
   * over exactly 100 values: each draw is one percent.
   */
  lemma {:induction false} LoadedDrawRange(file: Option<RawBalancing>, defaultTo: string)
    requires forall k :: 0 <= k < |LoadConfig(file, defaultTo).receivers| ==>
      LoadConfig(file, defaultTo).receivers[k].pourcentage >= 0
    ensures Total(Positive(LoadConfig(file, defaultTo).receivers)) == 100
  {
    var rs := LoadConfig(file, defaultTo).receivers;
    PositiveTotalOfNonNegative(rs);
    PositiveWeightsTotal(rs);
  }
}
