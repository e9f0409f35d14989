/** When a listing of the alerts names a pair of component and condition only once. */
module AlertPairs {
  import opened AlertModel
  import opened Words

  predicate SamePair(a: Alert, b: Alert) {
    a.component == b.component && a.condition == b.condition
  }

  ghost predicate Twice(t: seq<Alert>) {
    exists i, j :: 0 <= i < j < |t| && SamePair(t[i], t[j])
  }

  // ---------------------------------------------------------------- what the callers keep to

  /** The cooldowns of the calls for one pair, in order. */
  function Cooldowns(calls: seq<Call>, component: string, condition: string): seq<nat>
    decreases |calls|
  {
    if calls == [] then []
    else
      var c := calls[|calls| - 1];
      Cooldowns(calls[..|calls| - 1], component, condition)
      + if c.component == component && c.condition == condition then [Cooldown(c.severity) as nat] else []
  }

  /** All calls after the first have one cooldown, and it is no shorter than the first one's. */
  predicate Settled(ds: seq<nat>) {
    |ds| >= 2 ==> ds[0] <= ds[1] && forall j :: 2 <= j < |ds| ==> ds[j] == ds[1]
  }

  /** Names fit, and the cooldowns of each pair are settled since the last clear; `past` are
      the calls since then. */
  predicate Disciplined(past: seq<Call>, es: seq<Event>)
    decreases |es|
  {
    es == [] ||
    match es[0]
    case Clear => Disciplined([], es[1..])
    case Raise(c) =>
      NamesFit(c) && Settled(Cooldowns(past + [c], c.component, c.condition)) && Disciplined(past + [c], es[1..])
  }

  /** The cooldown that a pair has settled on, or has so far. */
  function Limit(ds: seq<nat>): nat {
    if |ds| == 0 then 0 else if |ds| == 1 then ds[0] else ds[1]
  }

  function LimitOf(past: seq<Call>, a: Alert): nat {
    Limit(Cooldowns(past, a.component, a.condition))
  }

  function CallsFor(past: seq<Call>, a: Alert): nat {
    |Cooldowns(past, a.component, a.condition)|
  }

  // ---------------------------------------------------------------- the invariant

  /** Each record's pair has been called, and its cooldown is within the pair's limit. */
  ghost predicate Backed(s: seq<Alert>, past: seq<Call>) {
    forall i :: 0 <= i < |s| ==> CallsFor(past, s[i]) >= 1 && Cooldown(s[i].severity) <= LimitOf(past, s[i])
  }

  /** Of two records for one pair, the earlier had left its cooldown when the later came. */
  ghost predicate Chained(s: seq<Alert>, past: seq<Call>) {
    forall i, j :: 0 <= i < j < |s| && SamePair(s[i], s[j]) ==>
      CallsFor(past, s[i]) >= 2 && s[i].lastTs + LimitOf(past, s[i]) <= s[j].firstTs
  }

  lemma PastGrows(past: seq<Call>, c: Call, component: string, condition: string)
    ensures Cooldowns(past + [c], component, condition)
            == Cooldowns(past, component, condition)
               + if c.component == component && c.condition == condition then [Cooldown(c.severity) as nat] else []
  {
    assert (past + [c])[..|past|] == past;
  }

  lemma LimitGrows(ds: seq<nat>, d: nat)
    requires Settled(ds + [d])
    ensures Limit(ds + [d]) == d && Limit(ds) <= d && (|ds| >= 2 ==> Limit(ds) == d)
  {
    assert (ds + [d])[|ds|] == d;
    if |ds| >= 1 {
      assert (ds + [d])[0] == ds[0];
    }
    if |ds| >= 2 {
      assert (ds + [d])[1] == ds[1];
    }
  }

  /** What one more settled call means for the limits of a record's pair. */
  lemma LimitAfter(past: seq<Call>, c: Call, a: Alert)
    requires Settled(Cooldowns(past + [c], c.component, c.condition))
    ensures LimitOf(past, a) <= LimitOf(past + [c], a) && CallsFor(past, a) <= CallsFor(past + [c], a)
    ensures CallsFor(past, a) >= 2 ==> LimitOf(past, a) == LimitOf(past + [c], a)
    ensures a.component == c.component && a.condition == c.condition ==>
              LimitOf(past + [c], a) == Cooldown(c.severity) && CallsFor(past + [c], a) == CallsFor(past, a) + 1
  {
    PastGrows(past, c, a.component, a.condition);
    if a.component == c.component && a.condition == c.condition {
      LimitGrows(Cooldowns(past, a.component, a.condition), Cooldown(c.severity));
    }
  }

  lemma CallKeepsChain(s: seq<Alert>, past: seq<Call>, c: Call)
    requires Backed(s, past) && Chained(s, past) && Settled(Cooldowns(past + [c], c.component, c.condition))
    ensures Backed(s, past + [c]) && Chained(s, past + [c])
    ensures forall i :: 0 <= i < |s| && s[i].component == c.component && s[i].condition == c.condition ==>
              CallsFor(past + [c], s[i]) >= 2
  {
    forall i | 0 <= i < |s|
      ensures CallsFor(past + [c], s[i]) >= 1 && Cooldown(s[i].severity) <= LimitOf(past + [c], s[i])
      ensures s[i].component == c.component && s[i].condition == c.condition ==> CallsFor(past + [c], s[i]) >= 2
      ensures CallsFor(past, s[i]) >= 2 ==>
                LimitOf(past + [c], s[i]) == LimitOf(past, s[i]) && CallsFor(past + [c], s[i]) >= 2
    {
      LimitAfter(past, c, s[i]);
    }
  }

  lemma TouchKeepsChain(s: seq<Alert>, past: seq<Call>, k: nat, c: Call)
    requires k < |s| && Timed(s, c.ts) && Chained(s, past) && Matches(s[k], c)
    requires LimitOf(past, s[k]) == Cooldown(c.severity)
    ensures Chained(s[k := Touched(s[k], c.ts)], past)
  {
    assert Elapsed(c.ts, s[k].lastTs) == c.ts - s[k].lastTs;
    forall j | k < j < |s| ensures !SamePair(s[k], s[j]) {
      assert s[j].firstTs <= c.ts;
    }
    var u := s[k := Touched(s[k], c.ts)];
    forall i, j | 0 <= i < j < |u| && SamePair(u[i], u[j])
      ensures CallsFor(past, u[i]) >= 2 && u[i].lastTs + LimitOf(past, u[i]) <= u[j].firstTs
    {
      assert SamePair(s[i], s[j]);
    }
  }

  lemma TouchKeepsBacked(s: seq<Alert>, past: seq<Call>, k: nat, ts: U64)
    requires k < |s| && Backed(s, past)
    ensures Backed(s[k := Touched(s[k], ts)], past)
  {
  }

  lemma AppendKeepsChain(s: seq<Alert>, past: seq<Call>, a: Alert)
    requires Chained(s, past)
    requires forall i :: 0 <= i < |s| && SamePair(s[i], a) ==>
               CallsFor(past, s[i]) >= 2 && s[i].lastTs + LimitOf(past, s[i]) <= a.firstTs
    ensures Chained(s + [a], past)
  {
  }

  /** A record that a call of its pair does not repeat is out of the pair's limit. */
  lemma UnmatchedHasExpired(a: Alert, c: Call)
    requires a.lastTs <= c.ts && !Matches(a, c) && a.component == c.component && a.condition == c.condition
    ensures a.lastTs + Cooldown(c.severity) <= c.ts
  {
    assert Elapsed(c.ts, a.lastTs) == c.ts - a.lastTs;
  }

  lemma FireKeepsChain(s: seq<Alert>, past: seq<Call>, c: Call)
    requires |s| <= ALERT_MAX_ACTIVE && Timed(s, c.ts) && NamesFit(c)
    requires Backed(s, past) && Chained(s, past) && Settled(Cooldowns(past + [c], c.component, c.condition))
    ensures Backed(Fire(s, c).alerts, past + [c]) && Chained(Fire(s, c).alerts, past + [c])
  {
    var k := MatchFrom(s, c, 0);
    CallKeepsChain(s, past, c);
    if k < |s| {
      LimitAfter(past, c, s[k]);
      TouchKeepsChain(s, past + [c], k, c);
      TouchKeepsBacked(s, past + [c], k, c.ts);
    } else if |s| < ALERT_MAX_ACTIVE {
      AddKeepsChain(s, s, past, c);
    } else {
      WithoutKeepsChain(s, Oldest(s), past + [c]);
      AddKeepsChain(s, Without(s, Oldest(s)), past, c);
    }
  }

  lemma WithoutKeepsChain(s: seq<Alert>, k: nat, past: seq<Call>)
    requires k < |s| && Backed(s, past) && Chained(s, past)
    ensures Backed(Without(s, k), past) && Chained(Without(s, k), past)
    ensures forall i :: 0 <= i < |s| - 1 ==> Without(s, k)[i] in s
  {
  }

  /** Adding the record of a call that repeats nothing to what is kept of the records. */
  lemma AddKeepsChain(s: seq<Alert>, kept: seq<Alert>, past: seq<Call>, c: Call)
    requires Timed(s, c.ts) && NamesFit(c) && (forall i :: 0 <= i < |s| ==> !Matches(s[i], c))
    requires Settled(Cooldowns(past + [c], c.component, c.condition))
    requires Backed(kept, past + [c]) && Chained(kept, past + [c])
    requires forall i :: 0 <= i < |kept| ==> kept[i] in s
    requires forall i :: 0 <= i < |kept| && kept[i].component == c.component && kept[i].condition == c.condition ==>
               CallsFor(past + [c], kept[i]) >= 2
    ensures Backed(kept + [Created(c)], past + [c]) && Chained(kept + [Created(c)], past + [c])
  {
    var a := Created(c);
    LimitAfter(past, c, a);
    forall i | 0 <= i < |kept| && SamePair(kept[i], a)
      ensures CallsFor(past + [c], kept[i]) >= 2 && kept[i].lastTs + LimitOf(past + [c], kept[i]) <= a.firstTs
    {
      LimitAfter(past, c, kept[i]);
      UnmatchedHasExpired(kept[i], c);
    }
    AppendKeepsChain(kept, past + [c], a);
  }

  function Since(past: seq<Call>, es: seq<Event>): seq<Call>
    decreases |es|
  {
    if es == [] then past
    else Since(if es[0].Raise? then past + [es[0].call] else [], es[1..])
  }

  lemma {:induction false} RunKeepsChain(l: Bounded, past: seq<Call>, es: seq<Event>, now: U64)
    requires Timed(l.alerts, now) && Ordered(l.alerts) && Backed(l.alerts, past) && Chained(l.alerts, past)
    requires Clocked(es, now) && Disciplined(past, es)
    ensures Backed(Run(l, es).alerts, Since(past, es)) && Chained(Run(l, es).alerts, Since(past, es))
    decreases |es|
  {
    if es != [] {
      match es[0]
      case Clear => RunKeepsChain(Step(l, es[0]), [], es[1..], now);
      case Raise(c) =>
        FireKeepsOrder(l.alerts, c, now);
        FireKeepsChain(l.alerts, past, c);
        RunKeepsChain(Step(l, es[0]), past + [c], es[1..], c.ts);
    }
  }

  // ---------------------------------------------------------------- the listing

  lemma LaterPairDiffers(s: seq<Alert>, past: seq<Call>, i: nat, j: nat, now: U64)
    requires i < j < |s| && Timed(s, now) && Ordered(s) && Backed(s, past) && Chained(s, past) && Active(s[i], now)
    ensures !SamePair(s[i], s[j]) && s[i].firstTs <= s[j].firstTs
  {
    assert Elapsed(now, s[i].lastTs) == now - s[i].lastTs;
    assert s[j].firstTs <= now;
  }

  /** After any run with a clock that does not go back, names that fit and settled cooldowns,
      a listing never names a pair twice, and goes by the time of first firing. */
  lemma ListingNamesPairsOnce(es: seq<Event>, max: nat, now: U64)
    requires Clocked(es, 0) && Disciplined([], es) && EndTime(es, 0) <= now
    ensures var t := GetActive(Run(EMPTY, es).alerts, max, now);
            && |t| <= max && !Twice(t)
            && forall i, j :: 0 <= i < j < |t| ==> t[i].firstTs <= t[j].firstTs
  {
    RunKeepsOrder(EMPTY, es, 0);
    RunKeepsChain(EMPTY, [], es, 0);
    var s := Run(EMPTY, es).alerts;
    var p := Places(s, 0, max, now);
    var t := GetActive(s, max, now);
    ListsTheFirstActive(s, 0, max, now);
    forall i, j | 0 <= i < j < |t| ensures !SamePair(t[i], t[j]) && t[i].firstTs <= t[j].firstTs {
      PlaceIsActive(s, 0, max, now, i);
      PlacesRise(s, 0, max, now, i, j);
      LaterPairDiffers(s, Since([], es), p[i], p[j], now);
    }
  }

  /** Two active records for one pair are both in a listing with room for all. */
  lemma ActivesAreListed(s: seq<Alert>, i: nat, j: nat, max: nat, now: U64)
    requires i < j < |s| <= max && SamePair(s[i], s[j]) && Active(s[i], now) && Active(s[j], now)
    ensures Twice(GetActive(s, max, now))
  {
    var p := Places(s, 0, max, now);
    var t := GetActive(s, max, now);
    ListsTheFirstActive(s, 0, max, now);
    ActiveIsPlaced(s, max, now, i);
    ActiveIsPlaced(s, max, now, j);
    var a :| 0 <= a < |p| && p[a] == i;
    var b :| 0 <= b < |p| && p[b] == j;
    assert t[a] == s[i] && t[b] == s[j];
    if a < b {
      assert SamePair(t[a], t[b]);
    } else {
      assert SamePair(t[b], t[a]);
    }
  }

  // ---------------------------------------------------------------- two calls

  lemma RunOfTwo(a: Call, b: Call)
    requires a.ts <= b.ts && NamesFit(a) && a.component == b.component && a.condition == b.condition
    ensures Run(EMPTY, [Raise(a), Raise(b)]).alerts
            == if b.ts - a.ts < Cooldown(b.severity) then [Touched(Created(a), b.ts)] else [Created(a), Created(b)]
  {
    var one := Step(EMPTY, Raise(a));
    assert one.alerts == [Created(a)];
    assert Elapsed(b.ts, a.ts) == b.ts - a.ts;
    var two := Step(one, Raise(b));
    assert [Raise(a), Raise(b)][1..] == [Raise(b)] && [Raise(b)][1..] == [];
    assert Run(EMPTY, [Raise(a), Raise(b)]) == Run(one, [Raise(b)]) == Run(two, []);
    if b.ts - a.ts < Cooldown(b.severity) {
      assert two.alerts == [Created(a)][0 := Touched(Created(a), b.ts)];
    }
  }

  /** Exactly when two calls for one pair are both listed: the second came after its own
      cooldown but within the first one's, and the listing is within both. So it takes a
      second call with a shorter cooldown. */
  lemma TwoCallsListedTwiceIff(a: Call, b: Call, max: nat, now: U64)
    requires NamesFit(a) && a.component == b.component && a.condition == b.condition
    requires a.ts <= b.ts <= now && max >= 2
    ensures Twice(GetActive(Run(EMPTY, [Raise(a), Raise(b)]).alerts, max, now))
            <==> b.ts - a.ts >= Cooldown(b.severity)
                 && now - a.ts < Cooldown(a.severity) && now - b.ts < Cooldown(b.severity)
  {
    var s := Run(EMPTY, [Raise(a), Raise(b)]).alerts;
    var t := GetActive(s, max, now);
    RunOfTwo(a, b);
    assert Elapsed(now, a.ts) == now - a.ts && Elapsed(now, b.ts) == now - b.ts;
    if b.ts - a.ts >= Cooldown(b.severity) {
      if Active(s[0], now) && Active(s[1], now) {
        ActivesAreListed(s, 0, 1, max, now);
      } else {
        FewActive(s, max, now);
      }
    } else {
      FewActive(s, max, now);
    }
  }

  lemma FewActive(s: seq<Alert>, max: nat, now: U64)
    requires |s| == 1 || (|s| == 2 && !(Active(s[0], now) && Active(s[1], now)))
    ensures |GetActive(s, max, now)| <= 1
  {
    ListsTheFirstActive(s, 0, max, now);
    var p := Places(s, 0, max, now);
    if |p| >= 2 {
      PlaceIsActive(s, 0, max, now, 0);
      PlaceIsActive(s, 0, max, now, 1);
      PlacesRise(s, 0, max, now, 0, 1);
    }
  }

  /** A warning, then 40 s later the same pair as critical, are both listed. */
  lemma MixedSeveritiesAreListedTwice(warn: Call, crit: Call)
    requires warn.severity == Warn && crit.severity == Crit && warn.ts == 0 && crit.ts == 40000
    requires NamesFit(warn) && warn.component == crit.component && warn.condition == crit.condition
    ensures Twice(GetActive(Run(EMPTY, [Raise(warn), Raise(crit)]).alerts, 2, 40000))
  {
    TwoCallsListedTwiceIff(warn, crit, 2, 40000);
  }

  // ---------------------------------------------------------------- any number of calls

  function Raised(cs: seq<Call>): (es: seq<Event>)
    ensures |es| == |cs| && forall i :: 0 <= i < |es| ==> es[i] == Raise(cs[i])
  {
    seq(|cs|, i requires 0 <= i < |cs| => Raise(cs[i]))
  }

  /** The first calls, made at these times. */
  function At(calls: seq<Call>, times: seq<U64>): (cs: seq<Call>)
    requires |times| <= |calls|
    ensures |cs| == |times| && forall i :: 0 <= i < |cs| ==> cs[i] == calls[i].(ts := times[i])
  {
    seq(|times|, i requires 0 <= i < |times| => calls[i].(ts := times[i]))
  }

  predicate Rising(times: seq<U64>) {
    forall i, j :: 0 <= i < j < |times| ==> times[i] <= times[j]
  }

  function CooldownsOf(calls: seq<Call>): (ds: seq<nat>)
    ensures |ds| == |calls| && forall i :: 0 <= i < |ds| ==> ds[i] == Cooldown(calls[i].severity)
  {
    seq(|calls|, i requires 0 <= i < |calls| => Cooldown(calls[i].severity) as nat)
  }

  predicate OnePair(calls: seq<Call>) {
    forall i :: 0 <= i < |calls| ==>
      NamesFit(calls[i]) && calls[i].component == calls[0].component && calls[i].condition == calls[0].condition
  }

  ghost predicate ListedOnce(calls: seq<Call>, times: seq<U64>, max: nat, now: U64) {
    |times| <= |calls| && Rising(times) && (times != [] ==> times[|times| - 1] <= now) ==>
      !Twice(GetActive(Run(EMPTY, Raised(At(calls, times))).alerts, max, now))
  }

  lemma {:induction false} CooldownsAt(calls: seq<Call>, component: string, condition: string)
    requires forall i :: 0 <= i < |calls| ==> calls[i].component == component && calls[i].condition == condition
    ensures Cooldowns(calls, component, condition) == CooldownsOf(calls)
    decreases |calls|
  {
    if calls != [] {
      var front := calls[..|calls| - 1];
      CooldownsAt(front, component, condition);
      assert CooldownsOf(calls) == CooldownsOf(front) + [Cooldown(calls[|calls| - 1].severity) as nat];
    }
  }

  lemma RaisedTail(cs: seq<Call>)
    requires cs != []
    ensures Raised(cs)[1..] == Raised(cs[1..])
  {
  }

  lemma SettledPrefix(ds: seq<nat>, n: nat)
    requires n <= |ds| && Settled(ds)
    ensures Settled(ds[..n])
  {
  }

  lemma NextIsSettled(past: seq<Call>, c: Call, rest: seq<Call>)
    requires OnePair(past + [c] + rest) && Settled(CooldownsOf(past + [c] + rest))
    ensures NamesFit(c) && Settled(Cooldowns(past + [c], c.component, c.condition))
  {
    var all, now := past + [c] + rest, past + [c];
    assert all[|past|] == c && all[..|now|] == now;
    CooldownsAt(now, c.component, c.condition);
    assert CooldownsOf(now) == CooldownsOf(all)[..|now|];
    SettledPrefix(CooldownsOf(all), |now|);
  }

  lemma {:induction false} SettledIsDisciplined(past: seq<Call>, cs: seq<Call>, all: seq<Call>)
    requires all == past + cs && OnePair(all) && Settled(CooldownsOf(all))
    ensures Disciplined(past, Raised(cs))
    decreases |cs|
  {
    if cs != [] {
      var c := cs[0];
      assert all == past + [c] + cs[1..];
      NextIsSettled(past, c, cs[1..]);
      SettledIsDisciplined(past + [c], cs[1..], all);
      RaisedTail(cs);
    }
  }

  predicate InOrder(cs: seq<Call>) {
    forall i, j :: 0 <= i < j < |cs| ==> cs[i].ts <= cs[j].ts
  }

  lemma {:induction false} InOrderIsClocked(cs: seq<Call>, now: U64)
    requires InOrder(cs) && (cs != [] ==> now <= cs[0].ts)
    ensures Clocked(Raised(cs), now) && EndTime(Raised(cs), now) == if cs == [] then now else cs[|cs| - 1].ts
    decreases |cs|
  {
    if cs != [] {
      InOrderIsClocked(cs[1..], cs[0].ts);
      RaisedTail(cs);
    }
  }

  lemma SettledIsListedOnce(calls: seq<Call>, times: seq<U64>, max: nat, now: U64)
    requires OnePair(calls) && Settled(CooldownsOf(calls))
    ensures ListedOnce(calls, times, max, now)
  {
    if |times| <= |calls| && Rising(times) && (times != [] ==> times[|times| - 1] <= now) {
      var cs := At(calls, times);
      AtIsSettled(calls, times);
      SettledCallsAreListedOnce(cs, max, now);
    }
  }

  lemma AtIsSettled(calls: seq<Call>, times: seq<U64>)
    requires OnePair(calls) && Settled(CooldownsOf(calls)) && |times| <= |calls|
    ensures OnePair(At(calls, times)) && Settled(CooldownsOf(At(calls, times)))
  {
    assert CooldownsOf(At(calls, times)) == CooldownsOf(calls)[..|times|];
    SettledPrefix(CooldownsOf(calls), |times|);
  }

  lemma SettledCallsAreListedOnce(cs: seq<Call>, max: nat, now: U64)
    requires OnePair(cs) && Settled(CooldownsOf(cs)) && InOrder(cs) && (cs != [] ==> cs[|cs| - 1].ts <= now)
    ensures !Twice(GetActive(Run(EMPTY, Raised(cs)).alerts, max, now))
  {
    SettledEvents(cs, Raised(cs));
    InOrderIsClocked(cs, 0);
    ListingNamesPairsOnce(Raised(cs), max, now);
  }

  lemma SettledEvents(cs: seq<Call>, es: seq<Event>)
    requires OnePair(cs) && Settled(CooldownsOf(cs)) && es == Raised(cs)
    ensures Disciplined([], es)
  {
    assert [] + cs == cs;
    SettledIsDisciplined([], cs, cs);
  }

  // ---------------------------------------------------------------- unsettled cooldowns

  /** n calls made at the times 0, d, d, ... */
  function Late(n: nat, d: U64): (times: seq<U64>)
    ensures |times| == n && forall i :: 0 <= i < n ==> times[i] == if i == 0 then 0 else d
  {
    seq(n, i requires 0 <= i < n => if i == 0 then 0 else d)
  }

  lemma RunOfSnoc(cs: seq<Call>, c: Call)
    ensures Run(EMPTY, Raised(cs + [c])).alerts == Fire(Run(EMPTY, Raised(cs)).alerts, c).alerts
  {
    assert Raised(cs + [c]) == Raised(cs) + [Raise(c)];
    RunSnoc(EMPTY, Raised(cs), Raise(c));
  }

  /** Two records, of the first call at time 0 and of the second at time d, last fired at d. */
  ghost predicate TwoRecords(s: seq<Alert>, calls: seq<Call>, d: U64)
    requires |calls| >= 2
  {
    && |s| == 2
    && s[0].component == calls[0].component && s[0].condition == calls[0].condition
    && s[0].severity == calls[0].severity && s[0].lastTs == 0
    && s[1].component == calls[0].component && s[1].condition == calls[0].condition
    && s[1].severity == calls[1].severity && s[1].lastTs == d
  }

  lemma {:induction false} CallsAtOneTime(calls: seq<Call>, n: nat, d: U64)
    requires 2 <= n <= |calls| && OnePair(calls)
    requires forall j :: 1 <= j < n ==> Cooldown(calls[j].severity) == d
    ensures TwoRecords(Run(EMPTY, Raised(At(calls, Late(n, d)))).alerts, calls, d)
  {
    var c := calls[n - 1].(ts := d);
    var before := At(calls, Late(n - 1, d));
    assert At(calls, Late(n, d)) == before + [c];
    RunOfSnoc(before, c);
    var s := Run(EMPTY, Raised(before)).alerts;
    if n == 2 {
      assert before == [] + [calls[0].(ts := 0)];
      RunOfSnoc([], calls[0].(ts := 0));
      assert Run(EMPTY, Raised([])) == EMPTY;
      assert s == [Created(calls[0].(ts := 0))];
      assert !Matches(s[0], c);
    } else {
      CallsAtOneTime(calls, n - 1, d);
      assert !Matches(s[0], c) && Matches(s[1], c);
      assert MatchFrom(s, c, 0) == 1;
    }
  }

  /** A second call with a shorter cooldown than the first can be listed beside it. */
  lemma ShorterSecondIsListed(calls: seq<Call>)
    requires |calls| >= 2 && OnePair(calls) && Cooldown(calls[1].severity) < Cooldown(calls[0].severity)
    ensures var d := Cooldown(calls[1].severity); !ListedOnce(calls, Late(2, d), 2, d)
  {
    var d := Cooldown(calls[1].severity);
    CallsAtOneTime(calls, 2, d);
    var s := Run(EMPTY, Raised(At(calls, Late(2, d)))).alerts;
    ActivesAreListed(s, 0, 1, 2, d);
  }

  /** The times of n + 1 calls, the last at time t. */
  function LateThen(n: nat, d: U64, t: U64): (times: seq<U64>)
    ensures |times| == n + 1
  {
    Late(n, d) + [t]
  }

  /** A later call with a longer cooldown than the second revives the first record. */
  lemma LongerLaterIsListed(calls: seq<Call>, n: nat)
    requires 2 <= n < |calls| && OnePair(calls)
    requires forall j :: 1 <= j < n ==> Cooldown(calls[j].severity) == Cooldown(calls[1].severity)
    requires Cooldown(calls[n].severity) > Cooldown(calls[1].severity)
    ensures var d := Cooldown(calls[1].severity); !ListedOnce(calls, LateThen(n, d, d), 2, d)
  {
    var d := Cooldown(calls[1].severity);
    var c := calls[n].(ts := d);
    var before := At(calls, Late(n, d));
    CallsAtOneTime(calls, n, d);
    assert At(calls, LateThen(n, d, d)) == before + [c];
    RunOfSnoc(before, c);
    var s := Run(EMPTY, Raised(before)).alerts;
    assert Matches(s[0], c) && MatchFrom(s, c, 0) == 0;
    var u := Fire(s, c).alerts;
    assert u == s[0 := Touched(s[0], d)];
    ActivesAreListed(u, 0, 1, 2, d);
  }

  /** A later call with a shorter cooldown than the second is recorded beside it. */
  lemma ShorterLaterIsListed(calls: seq<Call>, n: nat)
    requires 2 <= n < |calls| && OnePair(calls)
    requires forall j :: 1 <= j < n ==> Cooldown(calls[j].severity) == Cooldown(calls[1].severity)
    requires Cooldown(calls[n].severity) < Cooldown(calls[1].severity)
    ensures var d := Cooldown(calls[1].severity);
            var t := d + Cooldown(calls[n].severity);
            t < TWO_64 && !ListedOnce(calls, LateThen(n, d, t), 3, t)
  {
    var d, e := Cooldown(calls[1].severity), Cooldown(calls[n].severity);
    var t: U64 := d + e;
    var c := calls[n].(ts := t);
    var before := At(calls, Late(n, d));
    CallsAtOneTime(calls, n, d);
    assert At(calls, LateThen(n, d, t)) == before + [c];
    RunOfSnoc(before, c);
    var s := Run(EMPTY, Raised(before)).alerts;
    assert !Matches(s[0], c) && !Matches(s[1], c);
    var u := Fire(s, c).alerts;
    assert u == s + [Created(c)];
    ActivesAreListed(u, 1, 2, 3, t);
  }

  lemma FirstUnsettled(ds: seq<nat>) returns (n: nat)
    requires !Settled(ds) && ds[0] <= ds[1]
    ensures 2 <= n < |ds| && ds[n] != ds[1] && forall j :: 1 <= j < n ==> ds[j] == ds[1]
  {
    n := 2;
    while ds[n] == ds[1]
      invariant 2 <= n < |ds|
      invariant forall j :: 1 <= j < n ==> ds[j] == ds[1]
      invariant !Settled(ds)
      decreases |ds| - n
    {
      n := n + 1;
    }
  }

  lemma UnsettledIsListedTwice(calls: seq<Call>) returns (times: seq<U64>, max: nat, now: U64)
    requires OnePair(calls) && !Settled(CooldownsOf(calls))
    ensures !ListedOnce(calls, times, max, now)
  {
    var ds := CooldownsOf(calls);
    var d: U64 := Cooldown(calls[1].severity);
    if ds[1] < ds[0] {
      ShorterSecondIsListed(calls);
      times, max, now := Late(2, d), 2, d;
    } else {
      var n := FirstUnsettled(ds);
      if ds[n] > d {
        LongerLaterIsListed(calls, n);
        times, max, now := LateThen(n, d, d), 2, d;
      } else {
        ShorterLaterIsListed(calls, n);
        now := d + Cooldown(calls[n].severity);
        times, max := LateThen(n, d, now), 3;
      }
    }
  }

  /** Exactly when calls for one pair are listed at most once, whenever they are made: all
      calls after the first have one cooldown, no shorter than the first one's. */
  lemma ListedOnceIffSettled(calls: seq<Call>)
    requires OnePair(calls)
    ensures (forall times, max, now :: ListedOnce(calls, times, max, now)) <==> Settled(CooldownsOf(calls))
  {
    if Settled(CooldownsOf(calls)) {
      forall times, max, now ensures ListedOnce(calls, times, max, now) {
        SettledIsListedOnce(calls, times, max, now);
      }
    } else {
      var times, max, now := UnsettledIsListedTwice(calls);
    }
  }

  /** It is not enough that cooldowns never get shorter: a critical alert at 0 s and at 40 s
      and the same pair as information at 50 s are listed twice, because the third call
      repeats the first record and so revives it beside the second. */
  lemma LengtheningCooldownsAreListedTwice(first: Call, second: Call, third: Call)
    requires OnePair([first, second, third])
    requires first.severity == Crit && second.severity == Crit && third.severity == Info
    ensures var times: seq<U64> := [0, 40000, 50000]; !ListedOnce([first, second, third], times, 2, 50000)
  {
    var calls := [first, second, third];
    var times: seq<U64> := [0, 40000, 50000];
    var a, b, c := first.(ts := 0), second.(ts := 40000), third.(ts := 50000);
    var cs := At(calls, times);
    assert cs[0] == a && cs[1] == b && cs[2] == c;
    assert cs == [a, b] + [c];
    RunOfSnoc([a, b], c);
    assert Raised([a, b]) == [Raise(a), Raise(b)];
    RunOfTwo(a, b);
    var s := Run(EMPTY, Raised([a, b])).alerts;
    assert Matches(s[0], c) && MatchFrom(s, c, 0) == 0;
    ActivesAreListed(Fire(s, c).alerts, 0, 1, 2, 50000);
  }
}
