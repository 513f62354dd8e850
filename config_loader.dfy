/**
 * The receiver-share normalisation that load_config applies to the balancing
 * section of the configuration document, without the file and YAML reading.
 */
module ConfigLoader {
  import opened Wrappers
  import opened Rounding

  /** One entry of balancing.receivers as the document gives it; either key may be absent. */
  datatype RawReceiver = RawReceiver(email: Option<string>, pourcentage: Option<int>)

  /** The balancing section of the document; an absent receivers key is the empty list. */
  datatype RawBalancing = RawBalancing(enabled: Option<bool>, strategy: Option<string>, receivers: seq<RawReceiver>)

  /** A receiver of the effective configuration and its share in percent. */
  datatype Receiver = Receiver(email: string, pourcentage: int)

  /** The effective balancing configuration. The strategy is stored but nothing reads it. */
  datatype Balancing = Balancing(enabled: bool, strategy: string, receivers: seq<Receiver>)

  const DefaultStrategy: string := "weighted_random"

  /** What load_config reads from a document that has no balancing section ("or {}"). */
  const EmptySection: RawBalancing := RawBalancing(None, None, [])

  /** The single-entry list used whenever no usable receiver is configured. */
  function DefaultReceivers(defaultTo: string): (rs: seq<Receiver>)
    ensures |rs| == 1 && rs[0].email == defaultTo
    ensures Total(rs) == 100
  {
    [Receiver(defaultTo, 100)]
  }

  /** Sum of the shares. */
  function Total(rs: seq<Receiver>): (t: int)
    ensures (forall k :: 0 <= k < |rs| ==> rs[k].pourcentage >= 0) ==> t >= 0
  {
    if rs == [] then 0 else rs[0].pourcentage + Total(rs[1..])
  }

  lemma {:induction false} TotalAppend(a: seq<Receiver>, b: seq<Receiver>)
    ensures Total(a + b) == Total(a) + Total(b)
  {
    if a == [] {
      assert a + b == b;
    } else {
      assert (a + b)[1..] == a[1..] + b;
      TotalAppend(a[1..], b);
    }
  }

  /** Sum of max(0, share): negative shares do not count towards the total. */
  function PositiveTotal(rs: seq<Receiver>): (t: int)
    ensures t >= 0 && t >= Total(rs)
    ensures t == 0 <==> forall k :: 0 <= k < |rs| ==> rs[k].pourcentage <= 0
  {
    if rs == [] then 0 else (if rs[0].pourcentage > 0 then rs[0].pourcentage else 0) + PositiveTotal(rs[1..])
  }

  /** An entry is kept when it has an email and that email is not empty (Python truthiness). */
  predicate Survives(r: RawReceiver): (b: bool)
    ensures r.email.None? ==> !b
    ensures r.email == Some("") ==> !b
    ensures r.email.Some? && |r.email.value| > 0 ==> b
  {
    r.email.Some? && r.email.value != ""
  }

  /** A kept entry, with a missing pourcentage read as 0. */
  function Coerce(r: RawReceiver): (c: Receiver)
    requires Survives(r)
    ensures c.email == r.email.value && c.email != ""
    ensures r.pourcentage.None? ==> c.pourcentage == 0
    ensures r.pourcentage.Some? ==> c.pourcentage == r.pourcentage.value
  {
    Receiver(r.email.value, r.pourcentage.GetOr(0))
  }

  /** The first list comprehension of load_config: filter, then coerce. */
  function Survivors(raw: seq<RawReceiver>): (rs: seq<Receiver>)
    ensures |rs| <= |raw|
    ensures forall k :: 0 <= k < |rs| ==> rs[k].email != ""
  {
    if raw == [] then []
    else (if Survives(raw[0]) then [Coerce(raw[0])] else []) + Survivors(raw[1..])
  }

  /** The second list comprehension: every share becomes round(share * 100 / total). */
  function Rescale(rs: seq<Receiver>, total: int): (out: seq<Receiver>)
    requires total > 0
    ensures |out| == |rs|
    ensures forall k :: 0 <= k < |rs| ==>
      out[k].email == rs[k].email && out[k].pourcentage == RoundHalfEven(rs[k].pourcentage * 100, total)
  {
    if rs == [] then []
    else [Receiver(rs[0].email, RoundHalfEven(rs[0].pourcentage * 100, total))] + Rescale(rs[1..], total)
  }

  /** Adds 100 minus the sum of the shares to the first entry, so that the shares sum to 100. */
  function AddResidual(rs: seq<Receiver>): (out: seq<Receiver>)
    requires |rs| > 0
    ensures Total(out) == 100
    ensures |out| == |rs| && out[1..] == rs[1..] && out[0].email == rs[0].email
    ensures out[0].pourcentage == rs[0].pourcentage + (100 - Total(rs))
  {
    var diff := 100 - Total(rs);
    if diff != 0 then [rs[0].(pourcentage := rs[0].pourcentage + diff)] + rs[1..] else rs
  }

  /** The receivers list load_config builds from the document's receivers. */
  function NormalizeReceivers(raw: seq<RawReceiver>, defaultTo: string): (rs: seq<Receiver>)
    ensures Total(rs) == 100
    ensures Survivors(raw) == [] || PositiveTotal(Survivors(raw)) <= 0 ==> rs == DefaultReceivers(defaultTo)
    ensures Survivors(raw) != [] && PositiveTotal(Survivors(raw)) > 0 ==>
      var sv, total := Survivors(raw), PositiveTotal(Survivors(raw));
      && |rs| == |sv|
      && (forall k :: 0 <= k < |sv| ==> rs[k].email == sv[k].email)
      && (forall k :: 1 <= k < |sv| ==> rs[k].pourcentage == RoundHalfEven(sv[k].pourcentage * 100, total))
      && rs[0].pourcentage == RoundHalfEven(sv[0].pourcentage * 100, total) + (100 - Total(Rescale(sv, total)))
  {
    var survivors := Survivors(raw);
    var receivers := if survivors == [] then DefaultReceivers(defaultTo) else survivors;
    var total := PositiveTotal(receivers);
    var kept := if total <= 0 then DefaultReceivers(defaultTo) else receivers;
    var total' := if total <= 0 then 100 else total;
    AddResidual(Rescale(kept, total'))
  }

  /** load_config: an absent file gives the built-in configuration, a present one is normalised. */
  function LoadConfig(file: Option<RawBalancing>, defaultTo: string): (c: Balancing)
    ensures Total(c.receivers) == 100
    ensures file.None? ==> c == Balancing(true, DefaultStrategy, DefaultReceivers(defaultTo))
    ensures file.Some? ==> c.receivers == NormalizeReceivers(file.value.receivers, defaultTo)
    ensures file.Some? && file.value.enabled.None? ==> c.enabled
    ensures file.Some? && file.value.enabled.Some? ==> c.enabled == file.value.enabled.value
    ensures file.Some? && file.value.strategy.None? ==> c.strategy == DefaultStrategy
    ensures file.Some? && file.value.strategy.Some? ==> c.strategy == file.value.strategy.value
  {
    match file
    case None => Balancing(true, DefaultStrategy, DefaultReceivers(defaultTo))
    case Some(bal) =>
      Balancing(bal.enabled.GetOr(true), bal.strategy.GetOr(DefaultStrategy), NormalizeReceivers(bal.receivers, defaultTo))
  }

  /** The configuration written back as a document, every key present. */
  function AsDocument(c: Balancing): (doc: RawBalancing)
    ensures |doc.receivers| == |c.receivers|
  {
    RawBalancing(Some(c.enabled), Some(c.strategy), AsRawReceivers(c.receivers))
  }

  function AsRawReceivers(rs: seq<Receiver>): (raw: seq<RawReceiver>)
    ensures |raw| == |rs|
  {
    if rs == [] then [] else [RawReceiver(Some(rs[0].email), Some(rs[0].pourcentage))] + AsRawReceivers(rs[1..])
  }

  // ---------------------------------------------------------------------------
  // Filtering keeps order and multiplicity
  // ---------------------------------------------------------------------------

  lemma {:induction false} SurvivorsAppend(a: seq<RawReceiver>, b: seq<RawReceiver>)
    ensures Survivors(a + b) == Survivors(a) + Survivors(b)
  {
    if a == [] {
      assert a + b == b;
    } else {
      assert (a + b)[0] == a[0];
      assert (a + b)[1..] == a[1..] + b;
      SurvivorsAppend(a[1..], b);
    }
  }

  /**
   * idx lists, for every output position of Survivors(raw), the input entry it
   * came from: each survivor exactly once, in input order.
   */
  ghost predicate IndexesSurvivors(raw: seq<RawReceiver>, idx: seq<nat>)
  {
    && |idx| == |Survivors(raw)|
    && (forall k :: 0 <= k < |idx| ==>
          idx[k] < |raw| && Survives(raw[idx[k]]) && Survivors(raw)[k] == Coerce(raw[idx[k]]))
    && (forall k, l :: 0 <= k < l < |idx| ==> idx[k] < idx[l])
    && (forall i :: 0 <= i < |raw| && Survives(raw[i]) ==> i in idx)
  }

  /**
   * The surviving entries appear in the output exactly once each, in input
   * order: idx lists, for every output position, the input entry it came from.
   */
  lemma {:induction false} SurvivorsInOrder(raw: seq<RawReceiver>) returns (idx: seq<nat>)
    ensures |idx| == |Survivors(raw)|
    ensures forall k :: 0 <= k < |idx| ==>
      idx[k] < |raw| && Survives(raw[idx[k]]) && Survivors(raw)[k] == Coerce(raw[idx[k]])
    ensures forall k, l :: 0 <= k < l < |idx| ==> idx[k] < idx[l]
    ensures forall i :: 0 <= i < |raw| && Survives(raw[i]) ==> i in idx
  {
    idx := IndexSurvivors(raw);
  }

  lemma {:induction false} IndexSurvivors(raw: seq<RawReceiver>) returns (idx: seq<nat>)
    ensures IndexesSurvivors(raw, idx)
  {
    if raw == [] {
      idx := [];
    } else {
      var n := |raw| - 1;
      var rest := IndexSurvivors(raw[..n]);
      assert raw == raw[..n] + [raw[n]];
      SurvivorsAppend(raw[..n], [raw[n]]);
      assert Survivors([raw[n]]) == if Survives(raw[n]) then [Coerce(raw[n])] else [];
      if Survives(raw[n]) {
        idx := rest + [n];
        SnocKept(raw, rest);
      } else {
        idx := rest;
        SnocDropped(raw, rest);
      }
    }
  }

  lemma {:induction false} SnocKept(raw: seq<RawReceiver>, rest: seq<nat>)
    requires raw != [] && Survives(raw[|raw| - 1])
    requires IndexesSurvivors(raw[..|raw| - 1], rest)
    requires Survivors(raw) == Survivors(raw[..|raw| - 1]) + [Coerce(raw[|raw| - 1])]
    ensures IndexesSurvivors(raw, rest + [|raw| - 1])
  {
    var n := |raw| - 1;
    var idx := rest + [n];
    forall k | 0 <= k < |idx|
      ensures idx[k] < |raw| && Survives(raw[idx[k]]) && Survivors(raw)[k] == Coerce(raw[idx[k]])
    {
      if k < |rest| {
        assert raw[..n][rest[k]] == raw[rest[k]];
      }
    }
    forall i | 0 <= i < |raw| && Survives(raw[i]) ensures i in idx {
      if i < n {
        assert raw[..n][i] == raw[i];
      }
    }
  }

  lemma {:induction false} SnocDropped(raw: seq<RawReceiver>, rest: seq<nat>)
    requires raw != [] && !Survives(raw[|raw| - 1])
    requires IndexesSurvivors(raw[..|raw| - 1], rest)
    requires Survivors(raw) == Survivors(raw[..|raw| - 1])
    ensures IndexesSurvivors(raw, rest)
  {
    var n := |raw| - 1;
    forall k | 0 <= k < |rest|
      ensures rest[k] < |raw| && Survives(raw[rest[k]]) && Survivors(raw)[k] == Coerce(raw[rest[k]])
    {
      assert raw[..n][rest[k]] == raw[rest[k]];
    }
    forall i | 0 <= i < |raw| && Survives(raw[i]) ensures i in rest {
      assert raw[..n][i] == raw[i];
    }
  }

  lemma {:induction false} SurvivorsOfDocument(rs: seq<Receiver>)
    requires forall k :: 0 <= k < |rs| ==> rs[k].email != ""
    ensures Survivors(AsRawReceivers(rs)) == rs
  {
    if rs != [] {
      SurvivorsOfDocument(rs[1..]);
    }
  }

  // ---------------------------------------------------------------------------
  // Idempotence
  // ---------------------------------------------------------------------------

  lemma {:induction false} PositiveTotalOfNonNegative(rs: seq<Receiver>)
    requires forall k :: 0 <= k < |rs| ==> rs[k].pourcentage >= 0
    ensures PositiveTotal(rs) == Total(rs)
  {
    if rs != [] {
      PositiveTotalOfNonNegative(rs[1..]);
    }
  }

  lemma {:induction false} RescaleByHundred(rs: seq<Receiver>)
    ensures Rescale(rs, 100) == rs
  {
    if rs != [] {
      RoundExact(rs[0].pourcentage, 100);
      RescaleByHundred(rs[1..]);
    }
  }

  /**
   * A list of non-negative shares that already sums to 100 is its own
   * normalisation: the total is 100, every share maps to itself, the residual is 0.
   */
  lemma {:induction false} RenormalizeNormalized(rs: seq<Receiver>, defaultTo: string)
    requires forall k :: 0 <= k < |rs| ==> rs[k].email != ""
    requires forall k :: 0 <= k < |rs| ==> rs[k].pourcentage >= 0
    requires Total(rs) == 100
    ensures NormalizeReceivers(AsRawReceivers(rs), defaultTo) == rs
  {
    SurvivorsOfDocument(rs);
    PositiveTotalOfNonNegative(rs);
    RescaleByHundred(rs);
  }

  /** Reloading a configuration whose shares came out non-negative gives it back unchanged. */
  lemma {:induction false} LoadConfigIdempotent(file: Option<RawBalancing>, defaultTo: string)
    requires forall k :: 0 <= k < |LoadConfig(file, defaultTo).receivers| ==>
      LoadConfig(file, defaultTo).receivers[k].pourcentage >= 0
    ensures LoadConfig(Some(AsDocument(LoadConfig(file, defaultTo))), defaultTo) == LoadConfig(file, defaultTo)
  {
    var c := LoadConfig(file, defaultTo);
    if defaultTo == "" && c.receivers == DefaultReceivers(defaultTo) {
      // An empty default receiver is dropped by the email filter on reload,
      // which falls back to the same single entry.
      assert AsRawReceivers(c.receivers) == [RawReceiver(Some(""), Some(100))];
      assert Survivors([RawReceiver(Some(""), Some(100))]) == [];
      return;
    }
    if file.Some? {
      var sv := Survivors(file.value.receivers);
      if sv == [] || PositiveTotal(sv) <= 0 {
        assert c.receivers == DefaultReceivers(defaultTo);
      } else {
        assert forall k :: 0 <= k < |c.receivers| ==> c.receivers[k].email == sv[k].email;
      }
    }
    RenormalizeNormalized(c.receivers, defaultTo);
  }

  /** A missing file and a file without a balancing section give the same configuration. */
  lemma {:induction false} MissingFileIsEmptySection(defaultTo: string)
    ensures LoadConfig(None, defaultTo) == LoadConfig(Some(EmptySection), defaultTo)
  {
    assert RoundHalfEven(100 * 100, 100) == 100 by { RoundExact(100, 100); }
  }

  // ---------------------------------------------------------------------------
  // Bounds on the rescaled shares and on the residual
  // ---------------------------------------------------------------------------

  /** With non-negative weights every rescaled share lies in [0, 100]. */
  lemma {:induction false} RescaledInRange(rs: seq<Receiver>, total: int)
    requires total > 0
    requires forall k :: 0 <= k < |rs| ==> 0 <= rs[k].pourcentage <= total
    ensures forall k :: 0 <= k < |rs| ==> 0 <= Rescale(rs, total)[k].pourcentage <= 100
  {
    forall k | 0 <= k < |rs| ensures 0 <= Rescale(rs, total)[k].pourcentage <= 100 {
      MulMonotone(rs[k].pourcentage, total, 100);
      RoundInRange(rs[k].pourcentage * 100, total, 100);
    }
  }

  lemma {:induction false} MulDistributes(a: int, b: int, c: int)
    ensures a * (b + c) == a * b + a * c
  {
  }

  lemma {:induction false} MulSucc(n: int, t: int)
    ensures (n + 1) * t == n * t + t
  {
  }

  /** Twice the rounding error of the sum of the rescaled shares, scaled by the total. */
  function RoundingError(rs: seq<Receiver>, total: int): int
    requires total > 0
  {
    2 * (100 * Total(rs) - total * Total(Rescale(rs, total)))
  }

  /** Every rounding moves a share by at most one half, so the sum moves by at most |rs| / 2. */
  lemma {:induction false} RoundingErrorBound(rs: seq<Receiver>, total: int)
    requires total > 0
    ensures -|rs| * total <= RoundingError(rs, total) <= |rs| * total
  {
    if rs != [] {
      var r := RoundHalfEven(rs[0].pourcentage * 100, total);
      RoundingErrorBound(rs[1..], total);
      var u := Total(Rescale(rs[1..], total));
      assert Rescale(rs, total)[1..] == Rescale(rs[1..], total);
      assert Total(Rescale(rs, total)) == r + u;
      MulDistributes(total, r, u);
      MulSucc(|rs| - 1, total);
      assert RoundingError(rs, total) == 2 * (rs[0].pourcentage * 100 - r * total) + RoundingError(rs[1..], total);
    }
  }

  lemma {:induction false} Factor(t: int, b: int)
    ensures 2 * (100 * t - t * b) == (2 * (100 - b)) * t
  {
  }

  lemma {:induction false} DivideBound(x: int, n: int, t: int)
    requires t > 0
    requires -n * t <= x * t <= n * t
    ensures -n <= x <= n
  {
    if x > n {
      MulMonotone(n + 1, x, t);
      MulSucc(n, t);
    } else if x < -n {
      MulMonotone(x, -n - 1, t);
      MulSucc(-n - 1, t);
    }
  }

  lemma {:induction false} ResidualArithmetic(n: int, t: int, b: int, sum: int, e: int)
    requires t > 0 && sum == t
    requires e == 2 * (100 * sum - t * b)
    requires -n * t <= e <= n * t
    ensures -n <= 2 * (100 - b) <= n
  {
    Factor(t, b);
    DivideBound(2 * (100 - b), n, t);
  }

  /**
   * With non-negative weights the residual added to the first receiver is at
   * most half the number of receivers in absolute value.
   */
  lemma {:induction false} ResidualBound(rs: seq<Receiver>)
    requires forall k :: 0 <= k < |rs| ==> rs[k].pourcentage >= 0
    requires PositiveTotal(rs) > 0
    ensures -|rs| <= 2 * (100 - Total(Rescale(rs, PositiveTotal(rs)))) <= |rs|
  {
    var total := PositiveTotal(rs);
    PositiveTotalOfNonNegative(rs);
    RoundingErrorBound(rs, total);
    ResidualArithmetic(|rs|, total, Total(Rescale(rs, total)), Total(rs), RoundingError(rs, total));
  }

  /**
   * The residual can turn the first share negative even though every weight is
   * non-negative: weights 0, 3, 3, 2 rescale to 0, 38, 38, 25 (37.5 rounds to the
   * even 38), which sum to 101, so the first share becomes -1.
   */
  lemma {:induction false} NegativeFirstShare()
    ensures NormalizeReceivers(SampleDocument(), "x")[0] == Receiver("a", -1)
  {
    var sv := [Receiver("a", 0), Receiver("b", 3), Receiver("c", 3), Receiver("d", 2)];
    SampleSurvivors(sv);
    SampleRescaled(sv);
  }

  function SampleDocument(): seq<RawReceiver>
  {
    [RawReceiver(Some("a"), Some(0)), RawReceiver(Some("b"), Some(3)),
     RawReceiver(Some("c"), Some(3)), RawReceiver(Some("d"), Some(2))]
  }

  lemma {:induction false} SampleSurvivors(sv: seq<Receiver>)
    requires sv == [Receiver("a", 0), Receiver("b", 3), Receiver("c", 3), Receiver("d", 2)]
    ensures Survivors(SampleDocument()) == sv
    ensures PositiveTotal(sv) == 8
  {
    var raw := SampleDocument();
    assert Survivors(raw[3..]) == sv[3..];
    assert Survivors(raw[2..]) == sv[2..];
    assert Survivors(raw[1..]) == sv[1..];
    assert PositiveTotal(sv[3..]) == 2;
    assert PositiveTotal(sv[2..]) == 5;
    assert PositiveTotal(sv[1..]) == 8;
  }

  lemma {:induction false} SampleRescaled(sv: seq<Receiver>)
    requires sv == [Receiver("a", 0), Receiver("b", 3), Receiver("c", 3), Receiver("d", 2)]
    ensures RoundHalfEven(0, 8) == 0
    ensures Total(Rescale(sv, 8)) == 101
  {
    assert RoundHalfEven(300, 8) == 38;
    assert RoundHalfEven(200, 8) == 25;
    var scaled := Rescale(sv, 8);
    assert scaled == [Receiver("a", 0), Receiver("b", 38), Receiver("c", 38), Receiver("d", 25)];
    assert Total(scaled[3..]) == 25;
    assert Total(scaled[2..]) == 63;
    assert Total(scaled[1..]) == 101;
  }

  /**
   * The non-negativity hypothesis of LoadConfigIdempotent is needed: weights
   * [10, -5] load to [150, -50], and reloading that gives [133, -33].
   */
  lemma {:induction false} NegativeShareReloadsDifferently()
    ensures NormalizeReceivers(SkewedDocument(), "x") == [Receiver("a", 150), Receiver("b", -50)]
    ensures NormalizeReceivers(AsRawReceivers([Receiver("a", 150), Receiver("b", -50)]), "x")
      == [Receiver("a", 133), Receiver("b", -33)]
  {
    SkewedLoad([Receiver("a", 10), Receiver("b", -5)]);
    SkewedReload([Receiver("a", 150), Receiver("b", -50)]);
  }

  lemma {:induction false} SkewedLoad(sv: seq<Receiver>)
    requires sv == [Receiver("a", 10), Receiver("b", -5)]
    ensures Survivors(SkewedDocument()) == sv && PositiveTotal(sv) == 10
    ensures Rescale(sv, 10) == [Receiver("a", 100), Receiver("b", -50)]
  {
    assert Survivors(SkewedDocument()[1..]) == sv[1..];
    assert PositiveTotal(sv[1..]) == 0;
    assert RoundHalfEven(1000, 10) == 100;
    assert RoundHalfEven(-500, 10) == -50;
  }

  lemma {:induction false} SkewedReload(rs: seq<Receiver>)
    requires rs == [Receiver("a", 150), Receiver("b", -50)]
    ensures Survivors(AsRawReceivers(rs)) == rs && PositiveTotal(rs) == 150
    ensures Rescale(rs, 150) == [Receiver("a", 100), Receiver("b", -33)]
    ensures Total(Rescale(rs, 150)) == 67
  {
    SurvivorsOfDocument(rs);
    assert PositiveTotal(rs[1..]) == 0;
    assert RoundHalfEven(15000, 150) == 100;
    assert RoundHalfEven(-5000, 150) == -33;
    assert Total(Rescale(rs, 150)[1..]) == -33;
  }

  function SkewedDocument(): seq<RawReceiver>
  {
    [RawReceiver(Some("a"), Some(10)), RawReceiver(Some("b"), Some(-5))]
  }

  /**
   * Non-negativity is sufficient for a fixed point but not necessary: the list
   * NegativeFirstShare produces, [-1, 38, 38, 25], normalises to itself.
   */
  lemma {:induction false} NegativeFixedPoint()
    ensures var rs := [Receiver("a", -1), Receiver("b", 38), Receiver("c", 38), Receiver("d", 25)];
      NormalizeReceivers(AsRawReceivers(rs), "x") == rs
  {
    var rs := [Receiver("a", -1), Receiver("b", 38), Receiver("c", 38), Receiver("d", 25)];
    SurvivorsOfDocument(rs);
    assert PositiveTotal(rs[3..]) == 25;
    assert PositiveTotal(rs[2..]) == 63;
    assert PositiveTotal(rs) == 101;
    assert RoundHalfEven(-100, 101) == -1;
    assert RoundHalfEven(3800, 101) == 38;
    assert RoundHalfEven(2500, 101) == 25;
    var scaled := Rescale(rs, 101);
    assert scaled == rs;
    assert Total(rs[3..]) == 25;
    assert Total(rs[2..]) == 63;
    assert Total(rs) == 100;
  }
}
