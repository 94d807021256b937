/**
 * The per-tick step of the bandwidth sampler in cmd/method.go: for every
 * listed link it derives a byte rate from the previous counter total, keeps
 * the new total as the baseline, feeds the rate (in Mbit/s) to the link's
 * estimator, created lazily, and upserts the truncated estimate into the
 * BwBitsPerSec table shared with the fast path.
 */
module Sampler {
  import opened Wrappers
  import opened EmaFilter
  import opened GoInts

  /** One entry of the link enumeration: interface index and its cumulative byte counters. */
  datatype Link = Link(index: int, txBytes: Uint64, rxBytes: Uint64)

  /**
   * A value written into the table.  Go's uint64(f) truncates toward zero when
   * the result is representable; otherwise the result is implementation-dependent.
   */
  datatype Published = Exact(n: Uint64) | ImplDefined(metric: real)

  /** The table key: uint32(index), the low 32 bits of the index. */
  function Key(index: int): int
  {
    index % TwoTo32
  }

  /** The key is a 32-bit value congruent to the index: Go's two's-complement truncation. */
  lemma KeyIsLow32Bits(index: int)
    ensures 0 <= Key(index) < TwoTo32
    ensures (Key(index) - index) % TwoTo32 == 0
    ensures 0 <= index < TwoTo32 ==> Key(index) == index
    ensures -TwoTo32 <= index < 0 ==> Key(index) == index + TwoTo32
  {
  }

  /** float64(TxBytes + RxBytes): the sum wraps modulo 2^64 before the conversion. */
  function Total(l: Link): real
  {
    ((l.txBytes + l.rxBytes) % TwoTo64) as real
  }

  /** The total is the exact sum unless the sum passes 2^64, when it wraps. */
  lemma TotalWraps(l: Link)
    ensures 0.0 <= Total(l) < TwoTo64 as real
    ensures l.txBytes + l.rxBytes < TwoTo64 ==> Total(l) == (l.txBytes + l.rxBytes) as real
    ensures l.txBytes + l.rxBytes >= TwoTo64 ==> Total(l) == (l.txBytes + l.rxBytes - TwoTo64) as real
  {
  }

  /** Bytes per second to megabits per second. */
  function Mbps(bytesPerSec: real): real
  {
    bytesPerSec * 8.0 / 1000000.0
  }

  /** uint64(metric): truncation toward zero, which is 0 for a value in (-1, 0). */
  function ToUint64(m: real): Published
  {
    if -1.0 < m < TwoTo64 as real then Exact(if m >= 0.0 then m.Floor else 0) else ImplDefined(m)
  }

  /** The conversion is exact for in-range values and truncates toward zero. */
  lemma ToUint64Truncates(m: real)
    ensures ToUint64(m).Exact? <==> -1.0 < m < TwoTo64 as real
    ensures ToUint64(m).Exact? && m >= 0.0 ==> ToUint64(m).n as real <= m < ToUint64(m).n as real + 1.0
    ensures ToUint64(m).Exact? && m < 0.0 ==> ToUint64(m).n == 0
  {
  }

  /**
   * The abstract state the tick acts on: the counter baselines, the samples fed to
   * each link's estimator so far (the estimator's value is EmaOf of them), and the table.
   */
  datatype Sampled = Sampled(last: map<int, real>, fed: map<int, seq<real>>, table: map<int, Published>)

  /** The samples already fed to the estimator of `index` (none if it has no estimator). */
  function FedBefore(s: Sampled, index: int): seq<real>
  {
    if index in s.fed then s.fed[index] else []
  }

  /** The byte rate of a link on this tick: 0 without a baseline. */
  function Rate(s: Sampled, l: Link, intervalSec: real): real
    requires intervalSec > 0.0
  {
    if l.index in s.last then (Total(l) - s.last[l.index]) / intervalSec else 0.0
  }

  /** The loop body for one link, on the abstract state. */
  function StepLink(s: Sampled, l: Link, alpha: real, intervalSec: real): Sampled
    requires intervalSec > 0.0
  {
    var fed := FedBefore(s, l.index) + [Mbps(Rate(s, l, intervalSec))];
    Sampled(s.last[l.index := Total(l)],
            s.fed[l.index := fed],
            s.table[Key(l.index) := ToUint64(EmaOf(alpha, fed))])
  }

  /** A state that agrees with StepLink on each component is StepLink's result. */
  lemma StepLinkParts(s: Sampled, l: Link, alpha: real, intervalSec: real, t: Sampled)
    requires intervalSec > 0.0
    requires t.last == s.last[l.index := Total(l)]
    requires t.fed == s.fed[l.index := FedBefore(s, l.index) + [Mbps(Rate(s, l, intervalSec))]]
    requires t.table == s.table[Key(l.index) := ToUint64(EmaOf(alpha, t.fed[l.index]))]
    ensures t == StepLink(s, l, alpha, intervalSec)
  {
  }

  /** A whole tick: the links processed in order. */
  function TickSpec(s: Sampled, links: seq<Link>, alpha: real, intervalSec: real): Sampled
    requires intervalSec > 0.0
    decreases |links|
  {
    if links == [] then s
    else StepLink(TickSpec(s, links[..|links| - 1], alpha, intervalSec), links[|links| - 1], alpha, intervalSec)
  }

  /** Processing one more link extends the tick by one StepLink. */
  lemma TickSpecStep(s: Sampled, links: seq<Link>, alpha: real, intervalSec: real, i: int)
    requires intervalSec > 0.0
    requires 0 <= i < |links|
    ensures TickSpec(s, links[..i + 1], alpha, intervalSec)
         == StepLink(TickSpec(s, links[..i], alpha, intervalSec), links[i], alpha, intervalSec)
  {
    assert links[..i + 1][..i] == links[..i];
  }

  /** No two listed links share a table key (and so no two share an index). */
  ghost predicate DistinctKeys(links: seq<Link>)
  {
    forall i, j :: 0 <= i < j < |links| ==> Key(links[i].index) != Key(links[j].index)
  }

  /** A link index not listed keeps its baseline and its estimator. */
  lemma {:induction false} TickKeepsUnlisted(s: Sampled, links: seq<Link>, alpha: real, intervalSec: real, index: int)
    requires intervalSec > 0.0
    requires forall i :: 0 <= i < |links| ==> links[i].index != index
    ensures var t := TickSpec(s, links, alpha, intervalSec);
      && (index in t.last <==> index in s.last)
      && (index in s.last ==> t.last[index] == s.last[index])
      && (index in t.fed <==> index in s.fed)
      && (index in s.fed ==> t.fed[index] == s.fed[index])
    decreases |links|
  {
    if links != [] {
      TickKeepsUnlisted(s, links[..|links| - 1], alpha, intervalSec, index);
    }
  }

  /** A table key that no listed link maps to is not touched. */
  lemma {:induction false} TickKeepsOtherKeys(s: Sampled, links: seq<Link>, alpha: real, intervalSec: real, key: int)
    requires intervalSec > 0.0
    requires forall i :: 0 <= i < |links| ==> Key(links[i].index) != key
    ensures var t := TickSpec(s, links, alpha, intervalSec);
      && (key in t.table <==> key in s.table)
      && (key in s.table ==> t.table[key] == s.table[key])
    decreases |links|
  {
    if links != [] {
      TickKeepsOtherKeys(s, links[..|links| - 1], alpha, intervalSec, key);
    }
  }

  /**
   * For every listed link: the baseline becomes this tick's total, the
   * estimator is fed exactly one more sample, the rate from the old baseline
   * (0 without one) in Mbit/s, and the table holds its truncated output.
   */
  lemma {:induction false} TickPerLink(s: Sampled, links: seq<Link>, alpha: real, intervalSec: real, i: int)
    requires intervalSec > 0.0
    requires DistinctKeys(links)
    requires 0 <= i < |links|
    ensures var t := TickSpec(s, links, alpha, intervalSec);
      var index := links[i].index;
      && index in t.last && t.last[index] == Total(links[i])
      && index in t.fed && t.fed[index] == FedBefore(s, index) + [Mbps(Rate(s, links[i], intervalSec))]
      && Key(index) in t.table && t.table[Key(index)] == ToUint64(EmaOf(alpha, t.fed[index]))
    decreases |links|
  {
    var n := |links| - 1;
    var prefix := links[..n];
    var index := links[i].index;
    var before := TickSpec(s, prefix, alpha, intervalSec);
    if i == n {
      forall j | 0 <= j < |prefix| ensures prefix[j].index != index {
        assert Key(links[j].index) != Key(links[n].index);
      }
      TickKeepsUnlisted(s, prefix, alpha, intervalSec, index);
      SameBaselineSameRate(s, before, links[n], intervalSec);
      StepLinkAt(before, links[n], alpha, intervalSec);
    } else {
      assert DistinctKeys(prefix) by {
        forall a, b | 0 <= a < b < |prefix| ensures Key(prefix[a].index) != Key(prefix[b].index) {
          assert prefix[a] == links[a] && prefix[b] == links[b];
        }
      }
      TickPerLink(s, prefix, alpha, intervalSec, i);
      assert Key(links[i].index) != Key(links[n].index);
      StepLinkElsewhere(before, links[n], alpha, intervalSec, index);
    }
  }

  lemma SameBaselineSameRate(s: Sampled, t: Sampled, l: Link, intervalSec: real)
    requires intervalSec > 0.0
    requires l.index in s.last <==> l.index in t.last
    requires l.index in s.last ==> s.last[l.index] == t.last[l.index]
    ensures Rate(s, l, intervalSec) == Rate(t, l, intervalSec)
  {
  }

  /** What one step does to its own link. */
  lemma StepLinkAt(s: Sampled, l: Link, alpha: real, intervalSec: real)
    requires intervalSec > 0.0
    ensures var t := StepLink(s, l, alpha, intervalSec);
      && l.index in t.last && t.last[l.index] == Total(l)
      && l.index in t.fed && t.fed[l.index] == FedBefore(s, l.index) + [Mbps(Rate(s, l, intervalSec))]
      && Key(l.index) in t.table && t.table[Key(l.index)] == ToUint64(EmaOf(alpha, t.fed[l.index]))
  {
  }

  /** One step leaves the entries of another link with another key alone. */
  lemma StepLinkElsewhere(s: Sampled, l: Link, alpha: real, intervalSec: real, index: int)
    requires intervalSec > 0.0
    requires index != l.index && Key(index) != Key(l.index)
    ensures var t := StepLink(s, l, alpha, intervalSec);
      && (index in t.last <==> index in s.last)
      && (index in s.last ==> t.last[index] == s.last[index])
      && (index in t.fed <==> index in s.fed)
      && (index in s.fed ==> t.fed[index] == s.fed[index])
      && (Key(index) in t.table <==> Key(index) in s.table)
      && (Key(index) in s.table ==> t.table[Key(index)] == s.table[Key(index)])
  {
  }

  /** A link seen for the first time feeds 0 to a new estimator and publishes 0. */
  lemma FirstTickPublishesZero(s: Sampled, links: seq<Link>, alpha: real, intervalSec: real, i: int)
    requires intervalSec > 0.0
    requires DistinctKeys(links)
    requires 0 <= i < |links|
    requires links[i].index !in s.last && links[i].index !in s.fed
    ensures var t := TickSpec(s, links, alpha, intervalSec);
      && links[i].index in t.last && links[i].index in t.fed && Key(links[i].index) in t.table
      && t.last[links[i].index] == Total(links[i])
      && t.fed[links[i].index] == [0.0]
      && t.table[Key(links[i].index)] == Exact(0)
  {
    TickPerLink(s, links, alpha, intervalSec, i);
  }

  /**
   * The tick after a link's first one, with c1 the baseline the first tick
   * stored and c2 the new total, feeds m = (c2 - c1) / interval * 8 / 1e6 and
   * publishes the truncation of alpha * m.
   */
  lemma SecondTickPublishesScaledRate(s: Sampled, links: seq<Link>, alpha: real, intervalSec: real, i: int, c1: real, c2: real, m: real)
    requires intervalSec > 0.0
    requires DistinctKeys(links)
    requires 0 <= i < |links|
    requires links[i].index in s.last && FedBefore(s, links[i].index) == [0.0]
    requires s.last[links[i].index] == c1 && Total(links[i]) == c2
    requires m == Mbps((c2 - c1) / intervalSec)
    ensures var t := TickSpec(s, links, alpha, intervalSec);
      && links[i].index in t.fed && t.fed[links[i].index] == [0.0, m]
      && Key(links[i].index) in t.table && t.table[Key(links[i].index)] == ToUint64(alpha * m)
  {
    var t := TickSpec(s, links, alpha, intervalSec);
    SecondTickFeeds(s, links, alpha, intervalSec, i, c1, c2, m);
    ZeroSeedPublishes(alpha, m, t.table[Key(links[i].index)]);
  }

  /** The second tick's sample, with the published value still in terms of EmaOf. */
  lemma SecondTickFeeds(s: Sampled, links: seq<Link>, alpha: real, intervalSec: real, i: int, c1: real, c2: real, m: real)
    requires intervalSec > 0.0
    requires DistinctKeys(links)
    requires 0 <= i < |links|
    requires links[i].index in s.last && FedBefore(s, links[i].index) == [0.0]
    requires s.last[links[i].index] == c1 && Total(links[i]) == c2
    requires m == Mbps((c2 - c1) / intervalSec)
    ensures var t := TickSpec(s, links, alpha, intervalSec);
      && links[i].index in t.fed && t.fed[links[i].index] == [0.0, m]
      && Key(links[i].index) in t.table && t.table[Key(links[i].index)] == ToUint64(EmaOf(alpha, [0.0, m]))
  {
    var index := links[i].index;
    var t := TickSpec(s, links, alpha, intervalSec);
    TickPerLink(s, links, alpha, intervalSec, i);
    assert Rate(s, links[i], intervalSec) == (c2 - c1) / intervalSec;
  }

  /** A published EMA of [0, m] is the truncation of alpha * m. */
  lemma ZeroSeedPublishes(alpha: real, m: real, published: Published)
    requires published == ToUint64(EmaOf(alpha, [0.0, m]))
    ensures published == ToUint64(alpha * m)
  {
    ZeroSeedThen(alpha, m);
  }

  /** A counter total that went down is not clamped: the sample fed is negative. */
  lemma CounterDecreaseFeedsNegativeRate(s: Sampled, links: seq<Link>, alpha: real, intervalSec: real, i: int)
    requires intervalSec > 0.0
    requires DistinctKeys(links)
    requires 0 <= i < |links|
    requires links[i].index in s.last && Total(links[i]) < s.last[links[i].index]
    ensures var t := TickSpec(s, links, alpha, intervalSec);
      && links[i].index in t.fed && |t.fed[links[i].index]| > 0
      && t.fed[links[i].index][|t.fed[links[i].index]| - 1] < 0.0
  {
    TickPerLink(s, links, alpha, intervalSec, i);
    var d := Total(links[i]) - s.last[links[i].index];
    NegativeRate(d, intervalSec);
    assert Rate(s, links[i], intervalSec) == d / intervalSec;
  }

  lemma NegativeRate(d: real, intervalSec: real)
    requires d < 0.0 < intervalSec
    ensures Mbps(d / intervalSec) < 0.0
  {
    assert d / intervalSec * intervalSec == d;
  }

  /** The sampler goroutine's state in cmd/method.go. */
  class StatSampler {
    const span: Int64
    const intervalSec: real
    /** lastTotalBandwidth: link index to the counter total seen on the previous tick. */
    var lastTotal: map<int, real>
    /** emas: link index to that link's estimator. */
    var emas: map<int, Ema>
    /** Stands for the BwBitsPerSec table, keyed by uint32 link index. */
    var table: map<int, Published>
    /** The samples fed to each link's estimator so far. */
    ghost var fed: map<int, seq<real>>
    /** Every estimator this sampler has created. */
    ghost var Repr: set<Ema>

    ghost predicate Valid()
      reads this`emas, this`fed, this`Repr, Repr
    {
      && intervalSec > 0.0
      && (forall k | k in emas :: emas[k] in Repr)
      && (span <= 0 ==> emas == map[])
      && fed.Keys == emas.Keys
      && (forall k | k in emas :: span > 0 && emas[k].Valid() && emas[k].alpha == AlphaOf(span))
      && (forall k | k in emas :: emas[k].history == fed[k])
      && (forall k, k' | k in emas && k' in emas && k != k' :: emas[k] != emas[k'])
    }

    ghost function State(): Sampled
      reads this
    {
      Sampled(lastTotal, fed, table)
    }

    /** Both maps start empty; the interval is positive because the ticker refuses any other. */
    constructor (span: Int64, intervalSec: real, table: map<int, Published>)
      requires intervalSec > 0.0
      ensures Valid()
      ensures this.span == span && this.intervalSec == intervalSec
      ensures State() == Sampled(map[], map[], table)
      ensures Repr == {}
    {
      this.span := span;
      this.intervalSec := intervalSec;
      lastTotal := map[];
      emas := map[];
      this.table := table;
      fed := map[];
      Repr := {};
    }

    /**
     * The link's estimator, reused when there is one and otherwise created
     * once with the configured span.
     * None when that creation panics (span <= 0).
     */
    method EstimatorFor(index: int) returns (e: Option<Ema>)
      requires Valid()
      modifies this`emas, this`fed, this`Repr
      ensures Valid()
      ensures old(Repr) <= Repr && fresh(Repr - old(Repr))
      ensures e.Some? <==> span > 0
      ensures e.Some? ==> index in emas && emas[index] == e.value
      ensures e.Some? ==> fed == old(fed)[index := FedBefore(old(State()), index)]
      ensures index in old(emas) ==> e == Some(old(emas)[index]) && emas == old(emas)
      ensures index !in old(emas) && e.Some? ==> fresh(e.value) && emas == old(emas)[index := e.value]
    {
      if index in emas {
        return Some(emas[index]);
      }
      e := Ema.NewEma(span);
      if e.Some? {
        emas := emas[index := e.value];
        fed := fed[index := []];
        Repr := Repr + {e.value};
      }
    }

    /** Feeds one sample to the estimator of `index`; no other estimator changes. */
    method Feed(index: int, x: real) returns (metric: real)
      requires Valid() && index in emas
      modifies this`fed, emas[index]
      ensures Valid()
      ensures emas == old(emas)
      ensures fed == old(fed)[index := old(fed)[index] + [x]]
      ensures metric == EmaOf(AlphaOf(span), fed[index])
    {
      var ema := emas[index];
      assert forall k | k in emas && k != index :: emas[k] != ema;
      metric := ema.Update(x);
      fed := fed[index := fed[index] + [x]];
    }

    /**
     * Feeds one sample to the link's estimator, creating it first when the
     * link has none, and returns the estimate; None when the creation panics.
     */
    method Estimate(index: int, x: real) returns (metric: Option<real>)
      requires Valid()
      modifies this`emas, this`fed, this`Repr, Repr
      ensures Valid()
      ensures old(Repr) <= Repr && fresh(Repr - old(Repr))
      ensures metric.Some? <==> span > 0
      ensures metric.Some? ==> fed == old(fed)[index := FedBefore(old(State()), index) + [x]]
      ensures metric.Some? ==> metric.value == EmaOf(AlphaOf(span), fed[index])
    {
      var found := EstimatorFor(index);
      if found.None? {
        return None;
      }
      var m := Feed(index, x);
      metric := Some(m);
    }

    /** The link's rate from its stored baseline (0 without one); its total becomes the baseline. */
    method Rebase(l: Link) returns (bytesPerSec: real)
      requires intervalSec > 0.0
      modifies this`lastTotal
      ensures bytesPerSec == Rate(old(State()), l, intervalSec)
      ensures lastTotal == old(lastTotal)[l.index := Total(l)]
    {
      bytesPerSec := 0.0;
      var totalBandwidth := Total(l);
      if l.index in lastTotal {
        bytesPerSec := (totalBandwidth - lastTotal[l.index]) / intervalSec;
      }
      lastTotal := lastTotal[l.index := totalBandwidth];
    }

    /** Upserts the truncated estimate at the link's uint32 key (BwBitsPerSec.Update). */
    method Publish(index: int, metric: real)
      modifies this`table
      ensures table == old(table)[Key(index) := ToUint64(metric)]
    {
      table := table[Key(index) := ToUint64(metric)];
    }

    /**
     * The loop body for one link.  `ok` is false when creating the link's
     * estimator panics (span <= 0).
     */
    method Observe(l: Link) returns (ok: bool)
      requires Valid()
      modifies this, Repr
      ensures Valid()
      ensures old(Repr) <= Repr && fresh(Repr - old(Repr))
      ensures ok <==> span > 0
      ensures ok ==> State() == StepLink(old(State()), l, AlphaOf(span), intervalSec)
    {
      ghost var s := State();
      var bytesPerSec := Rebase(l);
      var megaBitsPerSec := bytesPerSec * 8.0 / 1000000.0;
      var metric := Estimate(l.index, megaBitsPerSec);
      if metric.None? {
        return false;
      }
      Publish(l.index, metric.value);
      ok := true;
      StepLinkParts(s, l, AlphaOf(span), intervalSec, State());
    }

    /**
     * One tick over the enumerated links.  `ok` is false when creating an
     * estimator panics (span <= 0); nothing is promised about the state then.
     */
    method Tick(links: seq<Link>) returns (ok: bool)
      requires Valid()
      modifies this, Repr
      ensures Valid()
      ensures old(Repr) <= Repr && fresh(Repr - old(Repr))
      ensures span > 0 ==> ok && State() == TickSpec(old(State()), links, AlphaOf(span), intervalSec)
      ensures span <= 0 ==> (ok <==> links == [])
      ensures span <= 0 && ok ==> State() == old(State())
    {
      var i := 0;
      while i < |links|
        invariant 0 <= i <= |links|
        invariant Valid()
        invariant old(Repr) <= Repr && fresh(Repr - old(Repr))
        invariant span > 0 ==> State() == TickSpec(old(State()), links[..i], AlphaOf(span), intervalSec)
        invariant span <= 0 ==> i == 0 && State() == old(State())
      {
        ok := Observe(links[i]);
        if !ok {
          return false;
        }
        TickSpecStep(old(State()), links, AlphaOf(span), intervalSec, i);
        i := i + 1;
      }
      assert links[..i] == links;
      return true;
    }
  }

  /**
   * A freshly started sampler run for two ticks over one link, as the ticker
   * loop runs them; TwoTicksTable states what the table then holds.
   */
  method TwoTicks(span: Int64, intervalSec: real, before: Link, after: Link) returns (sampler: StatSampler)
    requires span > 0 && intervalSec > 0.0
    ensures fresh(sampler) && sampler.Valid()
    ensures sampler.State() == TickSpec(TickSpec(Sampled(map[], map[], map[]), [before], AlphaOf(span), intervalSec),
                                        [after], AlphaOf(span), intervalSec)
  {
    sampler := new StatSampler(span, intervalSec, map[]);
    var ok := sampler.Tick([before]);
    ok := sampler.Tick([after]);
  }

  /** The table entries after two TickSpec steps from the empty state over one link. */
  lemma TwoTicksTable(s0: Sampled, s1: Sampled, s2: Sampled, alpha: real, intervalSec: real, before: Link, after: Link, m: real)
    requires intervalSec > 0.0 && before.index == after.index
    requires s0 == Sampled(map[], map[], map[])
    requires s1 == TickSpec(s0, [before], alpha, intervalSec)
    requires s2 == TickSpec(s1, [after], alpha, intervalSec)
    requires m == Mbps((Total(after) - Total(before)) / intervalSec)
    ensures Key(before.index) in s1.table && s1.table[Key(before.index)] == Exact(0)
    ensures Key(after.index) in s2.table && s2.table[Key(after.index)] == ToUint64(alpha * m)
  {
    FirstTickPublishesZero(s0, [before], alpha, intervalSec, 0);
    SecondTickPublishesScaledRate(s1, [after], alpha, intervalSec, 0, Total(before), Total(after), m);
  }
}
