# zpool hashrate history — a Dafny model

This project models the stateful core of a small zpool-to-Discord reporter
(`zpool.py`): the part that turns one poll's worker list into per-algorithm
totals, keeps a bounded, 24-hour history of those totals per algorithm,
reports the rolling average, and saves and restores that history.

- `format.dfy` (`HashrateFormat`): the unit ladder of `format_hashrate`:
  H/s, kH/s, MH/s, GH/s and TH/s at the thresholds 1e3, 1e6, 1e9 and 1e12,
  with the rate divided by the matching power of 1000.
- `aggregation.dfy` (`Aggregation`): `aggregate_hashrates`. It is written as
  the source's accumulating loop (`AggregateHashrates`, one `Accumulate` step
  per record) and checked against a reference definition. The reference
  takes, for each algorithm, the positive records naming it (`Contributors`),
  their count, and their sum (`TotalAccepted`).
- `history.dfy` (`HashrateHistory`): `update_hashrate_history` and
  `calculate_average_hashrate`.
  - A series is a `seq<Sample>`, oldest first.
  - The `deque(maxlen=144)` is modelled by one concept, `KeepLast(s, 144)`:
    the last 144 samples. Appending to a full deque and building a deque from
    a long list both reduce to it.
  - Eviction pops from the front while the front sample is strictly older
    than 24 hours.
- `persistence.dfy` (`Persistence`): the conversions done by
  `save_hashrate_history` and `load_hashrate_history`, as pure functions. It
  also models the effect of the single, fixed file name (see Findings).

Timestamps are whole seconds (`int`), 24 hours is `Window = 86400`, the
capacity is `Capacity = 144`, and hashrates are `real`. The source reads the
clock twice in one update: once for the new sample's timestamp (line 72) and
once for the eviction cutoff (line 76). The model takes a single `now`
parameter for both. With a clock that only moves forward, the two reads differ
only by the time between the calls. `datetime.now()` is naive local wall-clock
time, though, so it can step back (at the end of daylight saving time, or when
the clock is corrected), and then the two reads can differ either way.

The model follows the code as written:
- `load_hashrate_history` catches only I/O errors and `ValueError`. JSON that
  parses but is not an object makes `.items()` raise, and an object with a
  value that cannot be iterated (a number, a boolean or null) makes
  `deque(...)` raise. Nothing catches either exception, so `Load` returns
  `Raised` for them, not the empty history.
- The history file has one fixed name, `hashrate_history.json`, for every
  wallet. The model does not have per-wallet persistence, except in the
  corrected definition under Findings.
- `format_hashrate` accepts any number. Negative rates fall into the H/s
  band, and `Scale` models that.

## Model

| member | source | states |
|---|---|---|
| HashrateFormat.Scale | zpool.py:25-36 | The chosen unit's threshold band contains the rate. Multiplying the scaled magnitude by the unit's size gives back the rate. |
| HashrateFormat.BandsPartition | zpool.py:27-35 | The five threshold bands cover every rate and do not overlap, so each rate has exactly one unit. |
| HashrateFormat.ScaledMagnitudeRange | zpool.py:27-36 | For 1e3 <= v < 1e12 the magnitude lies in [1, 1000). From 1e12 up it is at least 1. A non-negative rate below 1e3 is shown unscaled. |
| HashrateFormat.UnitMonotone | zpool.py:27-36 | A larger rate never gets a smaller unit. |
| HashrateFormat.WorkedExamples | zpool.py:25-36 | 500, 1500, 2.5e6, 3e9 and 4e12 scale to 500 H/s, 1.5 kH/s, 2.5 MH/s, 3 GH/s and 4 TH/s. |
| Aggregation.AggregateHashrates | zpool.py:38-51 | Both maps have the same keys: the algorithms with at least one record whose accepted rate is > 0. For each key, the worker count is the number of those records (at least 1), and the hashrate is the sum of their accepted values. |
| Aggregation.Accumulate | zpool.py:43-50 | Given maps that share their keys, a positive record opens its algorithm's entry if needed, adds its accepted value to that algorithm's total and one to its worker count. Every other entry is unchanged, and a record that is not positive changes nothing. |
| Aggregation.AccumulateStep | zpool.py:42-50 | One loop iteration turns the aggregate of a prefix into the aggregate of that prefix plus one record. |
| Aggregation.ContributorsNonEmptyIff | zpool.py:43-50 | An algorithm has contributing records if and only if some record naming it has a positive accepted rate. |
| Aggregation.AggregationOrderIndependent | zpool.py:42-50 | Reordering the records changes neither the key set nor any key's count or sum. |
| HashrateHistory.KeepLast | zpool.py:64 | A deque with maxlen n built from a list keeps exactly min(len, n) entries, and they are the last ones, in order. |
| HashrateHistory.AppendBounded | zpool.py:71-73 | Appending to the bounded deque gives min(len + 1, 144) samples, and they are the last ones of old series plus new sample. |
| HashrateHistory.AppendBoundedCases | zpool.py:71-73 | Below capacity, an append keeps everything. At capacity, it drops exactly the leftmost sample. |
| HashrateHistory.EvictStale | zpool.py:76-78 | Eviction leaves a suffix, and every sample it removed was older than the cutoff. The new front, if any, is not older than the cutoff, so a sample exactly 24 h old is kept. |
| HashrateHistory.AppendAndEvict | zpool.py:72-78 | After an update a series is non-empty and holds at most 144 samples. It is a suffix of old series plus new sample and ends with the new sample. Its front is no older than now minus 24 h. Each dropped sample was pushed out by the capacity bound or was stale. |
| HashrateHistory.Update | zpool.py:68-78 | An absent key is created. Every other key keeps its series unchanged. The key's series is the old one (empty if absent) after the append-and-evict step. |
| HashrateHistory.AppendAndEvictWithinWindow | zpool.py:72-78 | Suppose the old series had non-decreasing timestamps, none later than now. Then the new series is non-decreasing, and every sample lies in [now - 24 h, now]. |
| HashrateHistory.UpdateWithinWindow | zpool.py:68-78 | The same window and ordering guarantee, stated for the updated key of the history. |
| HashrateHistory.UpdatePreservesWellFormed | zpool.py:68-78 | Suppose every series is within capacity, chronological and not later than an earlier time. An update at a later time keeps all three properties for every key. |
| HashrateHistory.Mean | zpool.py:83-84 | The mean of a non-empty series, multiplied by its length, gives the sum. It lies between the smallest and largest hashrate. |
| HashrateHistory.Average | zpool.py:80-85 | The result is 0 for an absent key or an empty series. Otherwise it is the series' mean, and it lies between the series' smallest and largest hashrate. |
| HashrateHistory.AverageOfConstant | zpool.py:80-85 | A series whose samples all have the same rate averages to that rate. |
| HashrateHistory.AverageExamples | zpool.py:80-85 | An absent key averages to 0, and the rates 10, 20, 30 average to 20. |
| Persistence.Save | zpool.py:53-57 | Every key is written, and its list holds the deque's samples in order. Loading it back is the identity (LoadSaveRoundTrip). |
| Persistence.Load | zpool.py:59-66 | An I/O failure or non-JSON content gives the empty history. JSON that is not an object, or has a value that cannot be iterated, raises. A parsed document keeps its keys, and each series is the last min(len, 144) stored entries, in order. |
| Persistence.LoadSaveRoundTrip | zpool.py:53-66 | Restoring what was saved gives back the history when every series holds at most 144 samples. |
| Persistence.LoadExactIff | zpool.py:64 | A parsed document restores unchanged if and only if no stored list is longer than 144. |
| Persistence.LoadIdempotent | zpool.py:53-66 | Saving a restored history and restoring it again gives the same history. |
| Persistence.LoadWellFormed | zpool.py:64 | A document whose lists are chronological and not later than now restores to a history satisfying the store-wide invariant. |
| Persistence.SaveEachWallet | zpool.py:120-129 | After each wallet saves in turn to the shared file, the file holds only the last wallet's history. |
| Persistence.RestoreEachWallet | zpool.py:116 | At start-up every configured wallet gets an entry, and each entry is what loading the one shared file gives. |
| Persistence.SharedFileMixesWallets | zpool.py:53-66 | As written: take two wallets with different histories and one poll cycle. After a restart, the first wallet gets the second wallet's history. |
| Persistence.PerWalletRoundTrip | zpool.py:53-66 | Corrected, with one file per wallet: a wallet restores exactly what it saved, and saving one wallet does not change what any other wallet restores. |

## Left out

- HTTP calls to the pool and price APIs (zpool.py:12-23) and the webhook POST
  with its message text (zpool.py:87-112). These are network I/O through a
  library that is not part of this model.
- The two-decimal rendering and the unit suffix text of `format_hashrate`.
  This is float-to-string formatting. Only the unit and the scaled magnitude
  are modelled; `Suffix` names the unit strings.
- Parsing the `accepted` strings with `float(...)` (zpool.py:43). Records
  carry an already-parsed `real`, so NaN and unparseable strings are not
  modelled.
- JSON file reading and writing, and ISO-8601 timestamp text. Save and load
  are modelled as pure conversions between a history and the parsed document
  (`Stored`). Timestamps are integer seconds, and their text round trip is
  taken to be exact.
- What a stored list's entries contain. Restoring does not inspect them, and
  the model assumes they are samples.
- Persistence.Load: a stored value that is a string or a nested object is not
  modelled. The source loads such a value without raising, as a deque of the
  string's characters or of the object's keys (an empty string or object gives
  an empty series). The model's documents hold only lists of samples, and the
  history holds only samples, so there is no case for these values.
- `load_config`, the endless polling loop, `time.sleep(600)` and the
  keyboard-interrupt flush (zpool.py:114-137). They are process control and
  orchestration. Only the saves and restores they perform on the shared file
  are modelled (`SaveEachWallet`, `RestoreEachWallet`).
- Floating-point rounding. `real` is exact, so the model's arithmetic is exact
  where the source rounds:
  - in the sums and averages (zpool.py:46, 83-84);
  - in the divisions of `format_hashrate` (zpool.py:30-36). `Scale`'s
    `magnitude * Divisor(unit) == value` holds only over the reals.
- AggregationOrderIndependent: this holds because `real` addition is
  associative. The source's float sums can differ in their last bits with
  the order of the records.
- Update: uses one `now` for both clock reads, as described above.
- UpdatePreservesWellFormed: this lemma, like AppendAndEvictWithinWindow and
  UpdateWithinWindow, assumes a clock that never goes back: the new time is
  no earlier than every stored sample. The source's naive local
  `datetime.now()` (zpool.py:72, 76) does not guarantee this. After a step
  back, a series can hold samples later than `now`, out of order, and the
  [now - 24 h, now] window need not hold.

## Findings

| source | as written | input that shows it | evidently intended | confidence | as-written member | corrected member |
|---|---|---|---|---|---|---|
| zpool.py:53-66 | `save_hashrate_history` and `load_hashrate_history` always use the same file, `hashrate_history.json`. Every configured wallet saves its history there in turn (line 129) and restores from it at start-up (line 116). | Two wallets A and B with histories {"x": [(t, 1.0)]} and {"y": [(t, 2.0)]}. After one poll cycle and a restart, A restores B's history, and A's own samples are lost. | One stored history per wallet, so that each wallet restores the history it saved. | medium, not executed | Persistence.SharedFileMixesWallets | Persistence.PerWalletRoundTrip |
