# Leads dispatcher: receiver shares, weighted routing, delivery counters

A Dafny model of the allocation core of the RomandeAssure leads dispatcher
(`main.py`). When a lead arrives, the service picks a receiver email by a
weighted random draw over the configured receivers. It then records whether
the delivery succeeded. The model has three parts:

- **Share normalisation** (`ConfigLoader`, from `load_config`). The
  `balancing` section of the configuration document becomes the effective
  configuration:
  - entries without a non-empty email are dropped;
  - a missing `pourcentage` reads as 0;
  - an empty list, or a list whose positive weights sum to at most 0, falls
    back to the single receiver `{LEADS_TO, 100}`;
  - every share is rescaled to `round(p * 100 / total)`, where `total` is the
    sum of `max(0, p)`;
  - the rounding residual goes to the first receiver.

  Python's `round` (nearest integer, ties to even) is modelled exactly on the
  rational `p * 100 / total` (`Rounding`).
- **Recipient selection** (`Routing`, from `pick_recipient`). Balancing may be
  disabled, or no receiver may have a positive share; then the result is the
  default receiver. Otherwise `random.choices` draws one of the receivers with
  a positive share, weighted by share. The random source is an explicit integer
  draw `d`, which stands for `random() * total` cut to an integer. The chosen
  entry is the one `bisect_right` finds over the running totals of the
  weights: the first entry whose running total exceeds `d`.
- **Delivery counters** (`RecipientStats`, from `inc_stat`). The
  `recipients_stats` table is a class holding a map from email to
  `(sent_count, fail_count, last_sent_at)`. `IncStat` first creates a 0/0 row
  when none exists. It then bumps exactly one counter, and on success sets
  `last_sent_at` to the timestamp passed in.

The default receiver (`LEADS_TO`) is a parameter `defaultTo`. A missing
configuration file is `None`. A document without a `balancing` section is
`EmptySection`, which is what `data.get("balancing") or {}` gives.

Facts of the code that the model keeps:

- Only the weighted random rule exists. The `strategy` field is stored and
  never read, so no history-based strategy is modelled.
- Negative weights are not clamped when they are rescaled; only the total
  ignores them.
- Shares are not guaranteed to be non-negative. The residual can push the
  first share below zero even when every weight is non-negative
  (`NegativeFirstShare`).
- A list with non-negative shares summing to 100 renormalises to itself. The
  non-negativity hypothesis cannot simply be dropped: weights [10, -5] load to
  [150, -50], which reloads to [133, -33]. It is not necessary either: the list
  [-1, 38, 38, 25] is its own normalisation.

Files: `wrappers.dfy` (Option), `rounding.dfy`, `config_loader.dfy`,
`routing.dfy`, `recipient_stats.dfy`.

## Model

| member | source | states |
|---|---|---|
| Rounding.RoundHalfEven | main.py:131 | the result is within one half of n / d, and on an exact half it is the even neighbour |
| Rounding.RoundHalfEvenUnique | main.py:131 | any integer that meets the round-half-to-even condition equals RoundHalfEven(n, d), so the rule has exactly one answer |
| Rounding.RoundExact | main.py:131 | an integral quotient is returned unchanged |
| Rounding.RoundInRange | main.py:131 | a quotient in [0, c] rounds into [0, c] |
| ConfigLoader.DefaultReceivers | main.py:124-127 | the fallback list is the single default receiver with share 100, so it sums to 100 |
| ConfigLoader.Total | main.py:134 | the sum of the shares; it is non-negative when every share is |
| ConfigLoader.TotalAppend | main.py:134 | the sum of a concatenation is the sum of the sums of its parts |
| ConfigLoader.PositiveTotal | main.py:125 | the total Σ max(0, p) is non-negative, at least the plain sum, and 0 exactly when no share is positive |
| ConfigLoader.Survives | main.py:121 | an entry with no email or an empty email is dropped; one with a non-empty email is kept |
| ConfigLoader.Rescale | main.py:130-133 | one entry per input entry, with the same email and share round-half-even(p * 100 / total) |
| ConfigLoader.Coerce | main.py:120 | a kept entry keeps its email, and its share is its pourcentage, or 0 when that is missing |
| ConfigLoader.Survivors | main.py:119-122 | no more entries than the input, and every kept email is non-empty |
| ConfigLoader.SurvivorsAppend | main.py:119-122 | filtering a concatenation is the concatenation of the filtered parts |
| ConfigLoader.SurvivorsInOrder | main.py:119-122 | each output entry comes from a distinct surviving input entry, in strictly increasing input order, and every surviving input entry appears |
| ConfigLoader.AddResidual | main.py:134-136 | the shares then sum to exactly 100; only the first share changes, by 100 minus the old sum |
| ConfigLoader.NormalizeReceivers | main.py:119-136 | the shares sum to 100; with no survivor or no positive total the result is [{defaultTo, 100}]; otherwise there is one entry per survivor with the same emails, entry k > 0 is round-half-even(p_k * 100 / total), and entry 0 is that value plus 100 minus the sum of the rounded shares |
| ConfigLoader.LoadConfig | main.py:113-152 | shares sum to 100; a missing file gives {true, weighted_random, [{defaultTo, 100}]}; a missing enabled reads as true and a missing strategy as weighted_random; present values are kept |
| ConfigLoader.RenormalizeNormalized | main.py:125-136 | non-empty emails and non-negative shares summing to 100 normalise to themselves |
| ConfigLoader.LoadConfigIdempotent | main.py:118-144 | reloading a loaded configuration whose shares are non-negative returns the same configuration |
| ConfigLoader.NegativeShareReloadsDifferently | main.py:125-136 | weights [10, -5] load to [150, -50], and reloading gives [133, -33], so a loaded configuration with a negative share need not reload to itself |
| ConfigLoader.NegativeFixedPoint | main.py:125-136 | the list [-1, 38, 38, 25] normalises to itself (total 101, shares -1, 38, 38, 25, residual 0), so non-negative shares are not needed for a fixed point |
| ConfigLoader.MissingFileIsEmptySection | main.py:115-152 | a missing file and a document without a balancing section give the same configuration |
| ConfigLoader.RescaledInRange | main.py:130-133 | with weights in [0, total], every rescaled share lies in [0, 100] |
| ConfigLoader.RoundingErrorBound | main.py:130-133 | the rescaled shares sum to 100 * Σp / total, give or take |rs| / 2 |
| ConfigLoader.ResidualBound | main.py:125-136 | with non-negative weights, the residual added to the first share is at most half the number of receivers in absolute value |
| ConfigLoader.NegativeFirstShare | main.py:130-136 | weights [0, 3, 3, 2] rescale to 0, 38, 38, 25 (37.5 rounds to the even 38), so the residual -1 gives the first receiver a share of -1 |
| Routing.Positive | main.py:158-160 | the drawable entries all have a positive share and come from the configuration; there are none exactly when no share is positive |
| Routing.PositiveAppend | main.py:158 | the positive-share filter keeps input order across concatenation |
| Routing.PositiveIndex | main.py:158 | every configuration entry with a positive share is drawable, at the position given by the number of positive-share entries before it |
| Routing.PositiveIndexOrder | main.py:158 | positive-share entries keep their configuration order in the drawable list |
| Routing.PositiveWeightsTotal | main.py:158-161 | the weights passed to random.choices sum to the positive total used by normalisation |
| Routing.Bisect | main.py:161-162 | the index random.choices picks is always a valid entry of the drawable list, since the search runs over [0, n - 1] |
| Routing.BisectInterval | main.py:161-162 | for 0 <= d < Σweights, draw d selects entry j exactly when it lies in [running total before j, running total through j) |
| Routing.DrawsPerEntry | main.py:161-162 | of the draws 0 <= d < Σweights, entry j is selected for exactly its weight |
| Routing.PickRecipient | main.py:154-162 | the default receiver when balancing is disabled or no share is positive; otherwise the email of a positive-share receiver |
| Routing.PickDistribution | main.py:154-162 | with balancing enabled, the j-th positive-share receiver is returned for exactly as many draws in [0, Σ max(0, share)) as its share |
| Routing.PickShare | main.py:154-162 | with balancing enabled, each configuration entry with a positive share is returned for exactly as many draws in [0, Σ max(0, share)) as its share |
| Routing.LoadedDrawRange | main.py:134-136 | after loading, non-negative shares give exactly 100 draw values |
| RecipientStats.Bump | main.py:98-107 | exactly one counter rises by one; success also sets last_sent_at to the given time, and failure leaves it unchanged |
| RecipientStats.Record | main.py:93-107 | a row exists for the email afterwards; it started from 0/0/NULL if it was absent; no other row changes |
| RecipientStats.ReplayCounts | main.py:90-110 | after a sequence of attempts, rows exist exactly for the emails attempted; sent_count and fail_count equal the numbers of successes and failures; last_sent_at is the time of the latest success, or NULL when there was none |
| RecipientStats.StatsTable.IncStat | main.py:90-110 | the new table is Record(old table, attempt): the row is created at 0/0 if absent, one counter is bumped, and nothing else changes |
| RecipientStats.StatsTable.constructor | main.py:54-61 | the table starts empty |

## Left out

- HTTP layer: the FastAPI app, its endpoints and the request handler. The
  handler picks a receiver, saves the lead, tries to send it, and then calls
  inc_stat with success or failure. That wiring is not modelled.
- SQLite plumbing: `init_db`, `sauvegarder_lead_sqlite`, `balancing_stats` and
  connection handling. This is persistence I/O; only the abstract counter map
  is kept. SQLite's 64-bit integer limit on the counters is not modelled.
- Brevo email sending: HTML building, the base64 attachment and the HTTP POST.
  This is an external service plus string formatting.
- File and YAML reading, and `os.path.exists`. A missing file is `None`.
- `int()` coercion of arbitrary YAML values: weights are already integers. A
  `pourcentage` key whose value is null makes `int()` raise; that is not
  modelled.
- `bool()` truthiness of a non-boolean `enabled`: `enabled` is an optional
  boolean. An explicit null value, which `bool(None)` turns into false, is not
  modelled.
- A `strategy` key that is present with a null or non-string value: it is
  stored as it is, which an optional string cannot represent. Nothing reads
  the strategy, so no routing depends on it.
- Non-string truthy email values: an email is an optional string.
- Floating point in `p * 100 / total`: the quotient is exact, so a float that
  rounds differently from the exact rational is not modelled.
- The global `CONFIG` and its reassignment: `LoadConfig` returns a value.
- The pseudo-random generator: it is replaced by the integer draw `d`. The
  float draw `random() * total` is represented by its integer part, which
  selects the same entry.
- Routing.Bisect: models the index bisect_right returns, not the steps of its
  binary search. The two agree because the running totals of positive weights
  strictly increase.
- Concurrency between requests.
