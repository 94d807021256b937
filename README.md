# lb-proposal: a verified model of the rate estimator and the IPv6 rewrite

lb-proposal is a small eBPF control loop. A user-space sampler runs once per
tick. For each network link it measures the link's byte rate and smooths it
with an exponential moving average (EMA). It then publishes the smoothed rate,
in Mbit/s, into the `BwBitsPerSec` table that the fast path reads. A kernel
program on the lwt_xmit hook rewrites the IPv6 destination `fc00:a:ff::` to
`fc00:a:21::` and asks the kernel to patch the ICMPv6 checksum. One variant of
that program also counts the rewrites in the `pkt_count` map.

The project has five modules:

- `EmaFilter` (ema.dfy) models the `EMA` type of cmd/ema.go.
  - Pure part: the smoothing factor `AlphaOf`, one smoothing step `Blend`, and
    `EmaOf(alpha, xs)`, the value after feeding the samples `xs`.
  - Lemmas: bounds, the first two samples, and convergence under constant
    input.
  - The class `Ema` has the fields `alpha`, `value` and `init`, and a ghost
    `history` of the samples fed so far. Its invariant is
    `value == EmaOf(alpha, history)`.
- `Sampler` (sampler.dfy) models one tick of the sampler goroutine
  (cmd/method.go:96-123).
  - The class `StatSampler` holds `lastTotal` (the per-link counter
    baselines), `emas` (the per-link estimators) and `table` (the published
    table).
  - `Tick` is a loop over the enumerated links, proved equal to the
    specification function `TickSpec`.
  - The lemmas about `TickSpec` state what a tick does to each link, and that
    it leaves every other baseline, estimator and table key alone.
- `Humanize` (humanize.dfy) models `humanizeSize` (cmd/string.go).
  - `Scale` picks the count and the unit.
  - `HumanizeSize` prints them.
  - A parse-back lemma shows the printed string determines both.
- `Ipv6Rewrite` (ipv6_rewrite.dfy) models `test_update_dst`
  (bpf/test_update_dst.h).
  - The packet is an `array<bv8>` rewritten in place.
  - The kernel helpers are not visible code, so the values they return are
    parameters. Each checksum request is recorded with its arguments.
  - `RewriteDst` is proved equal to the specification function `RewriteSpec`,
    and the lemmas state its behaviour case by case.
- `BpfProgram` (bpf_prog.dfy) models `do_test_data` and `increment_counter`
  (bpf/bpf.c).
  - Apart from the counter, `do_test_data` has the same control flow as
    `test_update_dst`: bpf/bpf.c:26-106 against bpf/test_update_dst.h:13-84.
    The model therefore reuses `RewriteDst`, and increments cell 0 of the
    counter array exactly when the store succeeded.

Three behaviours of the code are worth stating outright.

- **Counter decrease.** A decrease is not clamped. The code computes
  `(total - last) / intervalSec` as it is, so a negative rate reaches the
  estimator (`CounterDecreaseFeedsNegativeRate`).
- **First tick of a link.** The first tick does more than record the
  baseline. It also creates the link's estimator, feeds it the rate 0 and
  publishes 0 (`FirstTickPublishesZero`). The second tick then publishes the
  truncation of alpha times the measured rate
  (`SecondTickPublishesScaledRate`).
- **Counter choice.** The total is always `TxBytes + RxBytes`, summed as
  uint64.

The Go integer widths the code relies on live in `GoInts` (go_ints.dfy):
uint64 and int64 as ranges of `int`, and the int64 wrap-around.

## Model

| member | source | states |
|---|---|---|
| GoInts.WrapInt64 | cmd/ema.go:15 | an int64 sum is stored congruent to the exact sum modulo 2^64, and equals it when it fits |
| EmaFilter.AlphaOf | cmd/ema.go:15 | for a positive span below 2^63-1, alpha lies in (0, 1]; at span 2^63-1 the int64 sum span+1 wraps to -2^63 and alpha is -2/2^63; alpha is 1 exactly when the span is 1 |
| EmaFilter.LargestSpanExtrapolates | cmd/ema.go:15-27 | at span 2^63-1 alpha is negative, so an update moves the value away from the sample, past the old value |
| EmaFilter.BlendBetween | cmd/ema.go:27 | a later update's value lies between the old value and the new sample, inclusive in either order; alpha 1 gives the sample itself |
| EmaFilter.EmaOfWithin | cmd/ema.go:20-30 | after any non-empty run of updates, the value lies within the range of the samples fed |
| EmaFilter.FirstTwoSamples | cmd/ema.go:21-27 | the first sample becomes the value; the second gives alpha*y + (1-alpha)*x |
| EmaFilter.ZeroSeedThen | cmd/ema.go:21-27 | an estimator seeded with 0 holds alpha times its second sample |
| EmaFilter.SpanTenExample | cmd/ema.go:15-27 | span 10 gives alpha 2/11, and the samples 10 then 20 give 130/11 |
| EmaFilter.ConstantFeed | cmd/ema.go:20-30 | feeding a constant y after any history equals stepping from the current value toward y |
| EmaFilter.ApproachMonotone | cmd/ema.go:27 | under constant input y, the value moves monotonically toward y and never passes it, from either side |
| EmaFilter.ApproachGap | cmd/ema.go:27 | under constant input y, the distance to y after n samples is (1-alpha)^n times the initial distance |
| EmaFilter.Ema.constructor | cmd/ema.go:15-16 | a new estimator has alpha = AlphaOf(span), is uninitialised and has no history |
| EmaFilter.Ema.NewEma | cmd/ema.go:11-17 | span <= 0 yields no estimator (the panic); otherwise a fresh, valid, uninitialised estimator with alpha = AlphaOf(span), span+1 taken as an int64 sum |
| EmaFilter.Ema.Update | cmd/ema.go:20-30 | the first call returns the sample itself and sets init; later calls return alpha*x + (1-alpha)*old; the result is the EMA of all samples so far and becomes the value; alpha never changes |
| EmaFilter.Ema.GetValue | cmd/ema.go:33-37 | fails (the panic) exactly before the first Update; otherwise returns the EMA of all samples fed, which is the result of the latest Update |
| Sampler.KeyIsLow32Bits | cmd/method.go:122 | the table key uint32(index) is a 32-bit value congruent to the index modulo 2^32; an index in [0, 2^32) is its own key and one in [-2^32, 0) maps to index + 2^32 |
| Sampler.TotalWraps | cmd/method.go:108 | the total is TxBytes + RxBytes when that fits in 64 bits, and otherwise wraps modulo 2^64 |
| Sampler.ToUint64Truncates | cmd/method.go:122 | uint64(metric) is exact exactly for -1 < metric < 2^64; it then truncates toward zero, and gives 0 on (-1, 0) |
| Sampler.StepLinkAt | cmd/method.go:107-122 | one loop iteration sets the link's baseline to its total, feeds its estimator the rate from the old baseline in Mbit/s, and upserts the truncated estimate at uint32(index) |
| Sampler.StepLinkElsewhere | cmd/method.go:107-122 | one loop iteration leaves the baseline, the estimator and the table entry of every other link alone |
| Sampler.TickKeepsUnlisted | cmd/method.go:103-123 | an index that is not listed keeps its baseline and its estimator's samples over a whole tick |
| Sampler.TickKeepsOtherKeys | cmd/method.go:103-123 | a table key that no listed link maps to keeps its entry over a whole tick |
| Sampler.TickPerLink | cmd/method.go:103-123 | after a tick over links with distinct keys, each listed link has its new baseline and exactly one more sample (its rate, or 0 without a baseline, in Mbit/s), and its key holds the truncated estimate |
| Sampler.FirstTickPublishesZero | cmd/method.go:107-122 | a link seen for the first time gets a baseline, an estimator fed [0] and the table value 0 |
| Sampler.SecondTickPublishesScaledRate | cmd/method.go:107-122 | on the next tick, with c1 the stored baseline and c2 the new total, the estimator holds [0, m] with m = (c2-c1)/interval*8/1e6, and the table holds uint64(alpha * m) |
| Sampler.CounterDecreaseFeedsNegativeRate | cmd/method.go:108-110 | a counter total below the baseline is not clamped: the sample fed to the estimator is negative |
| Sampler.StatSampler.constructor | cmd/method.go:91-94 | both maps start empty, with a positive interval; the sampler owns no estimator yet, so a caller may tick it at once |
| Sampler.StatSampler.EstimatorFor | cmd/method.go:114-118 | an index's existing estimator is returned unchanged; otherwise a fresh one with the configured span is stored at that index and no other; span <= 0 fails (the panic) |
| Sampler.StatSampler.Feed | cmd/method.go:120 | only the link's own estimator gets the sample, and the result is the EMA of that link's samples |
| Sampler.StatSampler.Estimate | cmd/method.go:114-120 | the link's samples grow by exactly the fed value, and the result is their EMA; it fails exactly when span <= 0 |
| Sampler.StatSampler.Rebase | cmd/method.go:107-112 | the rate is (total - last) / intervalSec with a baseline and 0 without; the total becomes the baseline |
| Sampler.StatSampler.Publish | cmd/method.go:122 | the entry at uint32(index) is overwritten with uint64(metric), and no other key changes |
| Sampler.StatSampler.Observe | cmd/method.go:104-122 | one loop iteration on the object state equals StepLink on the abstract state; it fails exactly when span <= 0 |
| Sampler.StatSampler.Tick | cmd/method.go:103-123 | for span > 0 the new state is TickSpec of the old state and the links, and the invariant is kept; with span <= 0 it fails on the first link; it only adds fresh estimators, so ticks compose |
| Sampler.TwoTicks | cmd/method.go:96-123 | a freshly started sampler ticked twice, as the ticker loop does, holds the state of the two ticks run one after the other |
| Sampler.TwoTicksTable | cmd/method.go:96-123 | over two ticks of one link from the empty state, the link's key holds 0 after the first and uint64(alpha * m) after the second, m being the rate between the two readings in Mbit/s |
| Humanize.Scale | cmd/string.go:5-23 | the unit is chosen by the size range ([0,2^10), [2^10,2^20), [2^20,2^30), [2^30,2^40), [2^40,...)); the count is size / 1024^k; below TiB the count is at most 1023; above B it is at least 1; total on uint64 |
| Humanize.ShiftsAreDivisions | cmd/string.go:9-21 | with `x >> 10` taken as division by 1024, k successive shifts divide by 1024^k |
| Humanize.DecimalRoundTrip | cmd/string.go:7 | the %d rendering is a non-empty digit string that reads back as the number |
| Humanize.HumanizeRoundTrip | cmd/string.go:5-23 | the printed "<count> <unit>" string parses back to exactly the count and unit chosen |
| Ipv6Rewrite.FirstFailure | bpf/test_update_dst.h:62-69 | the index of the first failing checksum helper call; all earlier ones succeeded |
| Ipv6Rewrite.StoreBytes | bpf/test_update_dst.h:39 | a successful store copies the 16 bytes in and changes nothing else; a failed one leaves the packet unchanged |
| Ipv6Rewrite.ChecksumFixup | bpf/test_update_dst.h:59-80 | the loop asks for word i at offset 42 with flags 0x12, in order, and stops after the first failure; ok exactly when all four succeed |
| Ipv6Rewrite.RewriteDst | bpf/test_update_dst.h:13-84 | the verdict, the rewritten packet and the checksum requests are those of RewriteSpec on the old packet; stored exactly when the store was made and succeeded |
| Ipv6Rewrite.ShortPacketDropped | bpf/test_update_dst.h:18-21 | a packet shorter than 40 bytes is dropped untouched |
| Ipv6Rewrite.OtherDestinationUntouched | bpf/test_update_dst.h:35-37 | a destination other than fc00:a:ff:: is rerouted with the packet unchanged and no request |
| Ipv6Rewrite.MatchRewritesOnlyDst | bpf/test_update_dst.h:37-42 | a matching destination becomes fc00:a:21::, and no other byte changes |
| Ipv6Rewrite.StoreFailureDrops | bpf/test_update_dst.h:39-42 | a failed store drops the packet untouched |
| Ipv6Rewrite.IcmpChecksumRequests | bpf/test_update_dst.h:57-80 | for ICMPv6, when every request succeeds, exactly four requests at offset 42, request i replacing word i of the old address by word i of the new one |
| Ipv6Rewrite.NonIcmpNoRequests | bpf/test_update_dst.h:59-83 | for any other next header, no checksum request, and the packet is rerouted |
| Ipv6Rewrite.ChecksumFailureDrops | bpf/test_update_dst.h:62-69 | a failing checksum request drops the packet and is the last request made |
| Ipv6Rewrite.RerouteIffNoFailure | bpf/test_update_dst.h:18-83 | the verdict is Reroute exactly when the packet is long enough and either does not match or the store and every checksum request it makes succeed; otherwise it is Drop |
| Ipv6Rewrite.RewriteIdempotent | bpf/test_update_dst.h:24-37 | a rewritten packet no longer matches, so a second pass leaves it unchanged and reroutes it |
| BpfProgram.Incremented | bpf/bpf.c:19-23 | cell 0 grows by one, wrapping from 2^64-1 to 0, when the cell exists; other cells are unchanged |
| BpfProgram.IncrementCounter | bpf/bpf.c:19-23 | the counter array after the call is Incremented of the one before |
| BpfProgram.DoTestData | bpf/bpf.c:26-106 | the verdict, packet and requests are those of the rewrite; the counter is incremented once exactly when the store succeeded |
| BpfProgram.ShortPacketNotCounted | bpf/bpf.c:31-34 | a short packet is dropped and the counter is unchanged |
| BpfProgram.OtherDestinationNotCounted | bpf/bpf.c:56-58 | a non-matching destination is rerouted with packet and counter unchanged |
| BpfProgram.CountsStoredRewrites | bpf/bpf.c:58-65 | a stored rewrite adds one (mod 2^64) to the counter whatever the later steps return; a failed store adds nothing |
| BpfProgram.RewrittenPacketNotCountedAgain | bpf/bpf.c:45-65 | a packet already rewritten is not counted a second time |

## Left out

- EmaFilter.AlphaOf: at span = 2^63-1 the source's span+1 wraps and yields a negative alpha. The model computes that value, but the bounds lemmas (BlendBetween, EmaOfWithin, ApproachMonotone) need 0 < alpha <= 1 and so say nothing about that span.
- EmaFilter.Ema.NewEma: at span = 2^63-1 the source yields an estimator with a negative alpha, and the model does the same; float64(span+1) rounding is not modelled.

- The I/O and lifecycle around the core are not modelled: memlock removal, object loading, netlink route add and delete, signal handling, the WaitGroup, the NDJSON log files, `bpf_printk` and `bpf_ktime_get_ns`.
- main.go, cmd/root.go, cmd/ulogf.go, ulogf.go and bpf/ulogf.h are not part of this model. They hold the reader goroutines, flag parsing and log formatting.
- Sampler.StatSampler.Tick takes the link list as a parameter. The `netlink.LinkList` call and its `log.Fatalf` error path are left out.
- Sampler.StatSampler.Publish: the table is a map that always accepts the write. The error returned by `BwBitsPerSec.Update` is ignored by the code and is not modelled.
- Sampler.StatSampler.Tick: with span <= 0, `NewEMA` panics at the first link. The model reports failure and promises nothing about the state afterwards.
- float64 is modelled as exact `real`, so no rounding claim is made. `uint64(metric)` outside (-1, 2^64) is implementation-defined in Go and is kept as an opaque `ImplDefined` value.
- The checksum arithmetic of `bpf_l4_csum_replace` (the incremental ones'-complement update) is not modelled. Its write to bytes 42-43 is not applied to the packet; the requests are recorded instead. The flags value 0x12 is recorded as written; whether size 2 fits 32-bit words is a question about the kernel helper.
- Ipv6Rewrite.RewriteDst: the kernel helpers' return codes are parameters, and a failed store is assumed to leave the packet unchanged.
- Ipv6Rewrite.RewriteDst: the length re-checks after the store and after each checksum request are not modelled. The helpers cannot change the array's length in the model, so those branches cannot be taken.
- BpfProgram.DoTestData: the counter is incremented after the checksum requests rather than between the store and the requests. The two touch disjoint state, so the outcome is the same.
- BpfProgram.DoTestData requires the packet and the counter array to be different objects, as the packet buffer and the map cell are in the kernel.
- Humanize.ShiftsAreDivisions: `size >> 10` on a uint64 is modelled as integer division by 1024 (Shift10), which it equals for unsigned values; the bit-vector shift itself is not modelled.
- BpfProgram.IncrementCounter: the atomicity of `__sync_fetch_and_add` under concurrent programs is not modelled.
