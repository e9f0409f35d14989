/** Deduplication of alerts by cooldown, as a function on the list of stored records, and what
    it keeps over every run. */
module AlertModel {
  import opened Words

  const ALERT_MAX_ACTIVE := 1000
  const ALERT_COOLDOWN_CRITICAL_MS := 30000
  const ALERT_COOLDOWN_WARNING_MS := 60000
  const ALERT_COOLDOWN_INFO_MS := 300000
  const COMPONENT_SIZE := 32
  const CONDITION_SIZE := 64
  const VALUE_SIZE := 32
  const THRESHOLD_SIZE := 32
  const SUGGESTION_SIZE := 128

  datatype Severity = Info | Warn | Crit | Other

  datatype Alert = Alert(firstTs: U64, lastTs: U64, severity: Severity, component: string, condition: string,
                         currentValue: string, threshold: string, suggestion: string, occurrences: U32)

  datatype Call = Call(severity: Severity, component: string, condition: string,
                       currentValue: string, threshold: string, suggestion: string, ts: U64)

  function Cooldown(severity: Severity): U64 {
    match severity
    case Crit => ALERT_COOLDOWN_CRITICAL_MS
    case Warn => ALERT_COOLDOWN_WARNING_MS
    case Info => ALERT_COOLDOWN_INFO_MS
    case Other => ALERT_COOLDOWN_WARNING_MS
  }

  /** A text as a field of `size` bytes keeps it, the last byte ending the string. */
  function Fit(text: string, size: nat): string
    requires size > 0
  {
    if |text| < size then text else text[..size - 1]
  }

  predicate NamesFit(c: Call) {
    |c.component| < 32 && |c.condition| < 64
  }

  predicate Matches(a: Alert, c: Call) {
    a.component == c.component && a.condition == c.condition && Elapsed(c.ts, a.lastTs) < Cooldown(c.severity)
  }

  predicate Active(a: Alert, now: U64) {
    Elapsed(now, a.lastTs) < Cooldown(a.severity)
  }

  function Created(c: Call): Alert {
    Alert(c.ts, c.ts, c.severity, Fit(c.component, COMPONENT_SIZE), Fit(c.condition, CONDITION_SIZE),
          Fit(c.currentValue, VALUE_SIZE), Fit(c.threshold, THRESHOLD_SIZE), Fit(c.suggestion, SUGGESTION_SIZE), 1)
  }

  function Touched(a: Alert, ts: U64): Alert {
    var n: U32 := (a.occurrences + 1) % TWO_32;
    a.(lastTs := ts, occurrences := n)
  }

  /** The first record from i on that the call repeats, or the length when there is none. */
  function MatchFrom(s: seq<Alert>, c: Call, i: nat): (k: nat)
    requires i <= |s|
    ensures i <= k <= |s|
    ensures forall j :: i <= j < k ==> !Matches(s[j], c)
    ensures k < |s| ==> Matches(s[k], c)
    decreases |s| - i
  {
    if i == |s| || Matches(s[i], c) then i else MatchFrom(s, c, i + 1)
  }

  ghost predicate IsOldest(s: seq<Alert>, k: nat) {
    && k < |s|
    && (forall j :: 0 <= j < |s| ==> s[k].lastTs <= s[j].lastTs)
    && (forall j :: 0 <= j < k ==> s[k].lastTs < s[j].lastTs)
  }

  /** The first of the records fired least recently, when `best` is that of the first i. */
  function OldestFrom(s: seq<Alert>, i: nat, best: nat): (k: nat)
    requires i <= |s| && IsOldest(s[..i], best)
    ensures IsOldest(s, k)
    decreases |s| - i
  {
    if i == |s| then
      assert s[..i] == s;
      best
    else
      OldestExtends(s, i, best);
      OldestFrom(s, i + 1, if s[i].lastTs < s[best].lastTs then i else best)
  }

  lemma OldestExtends(s: seq<Alert>, i: nat, best: nat)
    requires i < |s| && IsOldest(s[..i], best)
    ensures IsOldest(s[..i + 1], if s[i].lastTs < s[best].lastTs then i else best)
  {
    var t := s[..i];
    assert t[best].lastTs == s[best].lastTs;
    assert forall j :: 0 <= j < i ==> t[j] == s[j];
  }

  function Oldest(s: seq<Alert>): (k: nat)
    requires s != []
    ensures IsOldest(s, k)
  {
    OldestFrom(s, 1, 0)
  }

  function Without<T>(s: seq<T>, k: nat): (t: seq<T>)
    requires k < |s|
    ensures |t| == |s| - 1
    ensures forall i :: 0 <= i < |t| ==> t[i] == if i < k then s[i] else s[i + 1]
  {
    s[..k] + s[k + 1..]
  }

  /** The records after the call, the index returned, and the occurrences lost by eviction. */
  datatype Fired = Fired(alerts: seq<Alert>, id: nat, lost: nat)

  /** alert_fire */
  function Fire(s: seq<Alert>, c: Call): (r: Fired)
    requires |s| <= ALERT_MAX_ACTIVE
    ensures |s| <= |r.alerts| <= ALERT_MAX_ACTIVE && r.id < |r.alerts|
  {
    var k := MatchFrom(s, c, 0);
    if k < |s| then Fired(s[k := Touched(s[k], c.ts)], k, 0)
    else if |s| < ALERT_MAX_ACTIVE then Fired(s + [Created(c)], |s|, 0)
    else
      var victim := Oldest(s);
      Fired(Without(s, victim) + [Created(c)], |s| - 1, s[victim].occurrences)
  }

  /** The active records from i on, at most `room` of them. */
  function ActiveFrom(s: seq<Alert>, i: nat, room: nat, now: U64): seq<Alert>
    requires i <= |s|
    decreases |s| - i
  {
    if i == |s| || room == 0 then []
    else if Active(s[i], now) then [s[i]] + ActiveFrom(s, i + 1, room - 1, now)
    else ActiveFrom(s, i + 1, room, now)
  }

  /** alert_get_active */
  function GetActive(s: seq<Alert>, max: nat, now: U64): seq<Alert> {
    ActiveFrom(s, 0, max, now)
  }

  // ---------------------------------------------------------------- runs

  datatype Event = Raise(call: Call) | Clear

  /** The stored records, with the calls made since the last clear and the occurrences evicted. */
  datatype Log = Log(alerts: seq<Alert>, calls: nat, evicted: nat)

  type Bounded = l: Log | |l.alerts| <= ALERT_MAX_ACTIVE witness Log([], 0, 0)

  function Step(l: Bounded, e: Event): Bounded {
    match e
    case Clear => Log([], 0, 0)
    case Raise(c) =>
      var r := Fire(l.alerts, c);
      Log(r.alerts, l.calls + 1, l.evicted + r.lost)
  }

  function Run(l: Bounded, es: seq<Event>): Bounded
    decreases |es|
  {
    if es == [] then l else Run(Step(l, es[0]), es[1..])
  }

  const EMPTY: Bounded := Log([], 0, 0)

  // ---------------------------------------------------------------- nothing is lost

  function Occurrences(s: seq<Alert>): (n: nat)
    ensures forall i :: 0 <= i < |s| ==> s[i].occurrences <= n
  {
    if s == [] then 0 else s[0].occurrences + Occurrences(s[1..])
  }

  lemma {:induction false} OccurrencesSplit(s: seq<Alert>, t: seq<Alert>)
    ensures Occurrences(s + t) == Occurrences(s) + Occurrences(t)
    decreases |s|
  {
    if s == [] {
      assert s + t == t;
    } else {
      OccurrencesSplit(s[1..], t);
      assert (s + t)[1..] == s[1..] + t;
    }
  }

  lemma OccurrencesAround(s: seq<Alert>, k: nat, t: seq<Alert>)
    requires k < |s|
    ensures Occurrences(s) == Occurrences(s[..k]) + s[k].occurrences + Occurrences(s[k + 1..])
    ensures Occurrences(s[..k] + t + s[k + 1..]) == Occurrences(s[..k]) + Occurrences(t) + Occurrences(s[k + 1..])
  {
    assert s == s[..k] + s[k..] && s[k..] == [s[k]] + s[k + 1..];
    OccurrencesSplit(s[..k], s[k..]);
    OccurrencesSplit(s[..k] + t, s[k + 1..]);
    OccurrencesSplit(s[..k], t);
  }

  ghost predicate Accounted(l: Bounded) {
    l.calls < TWO_32 ==> Occurrences(l.alerts) + l.evicted == l.calls
  }

  lemma StepAccounts(l: Bounded, e: Event)
    requires Accounted(l)
    ensures Accounted(Step(l, e))
  {
    if e.Raise? && l.calls + 1 < TWO_32 {
      var s, c := l.alerts, e.call;
      var k := MatchFrom(s, c, 0);
      if k < |s| {
        var a := Touched(s[k], c.ts);
        OccurrencesAround(s, k, [a]);
        assert s[k := a] == s[..k] + [a] + s[k + 1..];
        assert Occurrences([a]) == a.occurrences == s[k].occurrences + 1;
      } else {
        assert Occurrences([Created(c)]) == 1;
        if |s| < ALERT_MAX_ACTIVE {
          OccurrencesSplit(s, [Created(c)]);
        } else {
          var victim := Oldest(s);
          OccurrencesAround(s, victim, []);
          assert s[..victim] + [] + s[victim + 1..] == Without(s, victim);
          OccurrencesSplit(Without(s, victim), [Created(c)]);
        }
      }
    }
  }

  /** Conservation, whatever the clock, the names and the severities do: the calls since the
      last clear are the occurrences stored and the occurrences evicted, as long as a 32-bit
      counter can hold their number. */
  lemma {:induction false} RunAccounts(l: Bounded, es: seq<Event>)
    requires Accounted(l)
    ensures Accounted(Run(l, es))
    decreases |es|
  {
    if es != [] {
      StepAccounts(l, es[0]);
      RunAccounts(Step(l, es[0]), es[1..]);
    }
  }

  // ---------------------------------------------------------------- order in time

  /** Timestamps never go back, from `now` on. */
  predicate Clocked(es: seq<Event>, now: U64)
    decreases |es|
  {
    es == [] ||
    match es[0]
    case Clear => Clocked(es[1..], now)
    case Raise(c) => now <= c.ts && Clocked(es[1..], c.ts)
  }

  function EndTime(es: seq<Event>, now: U64): U64
    decreases |es|
  {
    if es == [] then now
    else EndTime(es[1..], if es[0].Raise? then es[0].call.ts else now)
  }

  ghost predicate Timed(s: seq<Alert>, now: U64) {
    forall i :: 0 <= i < |s| ==> s[i].firstTs <= s[i].lastTs <= now
  }

  ghost predicate Ordered(s: seq<Alert>) {
    forall i, j :: 0 <= i < j < |s| ==> s[i].firstTs <= s[j].firstTs
  }

  lemma FireKeepsOrder(s: seq<Alert>, c: Call, now: U64)
    requires |s| <= ALERT_MAX_ACTIVE && Timed(s, now) && Ordered(s) && now <= c.ts
    ensures Timed(Fire(s, c).alerts, c.ts) && Ordered(Fire(s, c).alerts)
  {
    var k := MatchFrom(s, c, 0);
    if k < |s| {
      TouchKeepsOrder(s, k, c.ts);
    } else if |s| < ALERT_MAX_ACTIVE {
      AppendKeepsOrder(s, c);
    } else {
      AppendKeepsOrder(Without(s, Oldest(s)), c);
    }
  }

  lemma TouchKeepsOrder(s: seq<Alert>, k: nat, ts: U64)
    requires k < |s| && Timed(s, ts) && Ordered(s)
    ensures Timed(s[k := Touched(s[k], ts)], ts) && Ordered(s[k := Touched(s[k], ts)])
  {
  }

  lemma AppendKeepsOrder(s: seq<Alert>, c: Call)
    requires Timed(s, c.ts) && Ordered(s)
    ensures Timed(s + [Created(c)], c.ts) && Ordered(s + [Created(c)])
  {
  }

  /** Records stay ordered by the time they were first fired. */
  lemma {:induction false} RunKeepsOrder(l: Bounded, es: seq<Event>, now: U64)
    requires Timed(l.alerts, now) && Ordered(l.alerts) && Clocked(es, now)
    ensures Timed(Run(l, es).alerts, EndTime(es, now)) && Ordered(Run(l, es).alerts)
    decreases |es|
  {
    if es != [] {
      match es[0]
      case Clear => RunKeepsOrder(Step(l, es[0]), es[1..], now);
      case Raise(c) =>
        FireKeepsOrder(l.alerts, c, now);
        RunKeepsOrder(Step(l, es[0]), es[1..], c.ts);
    }
  }

  /** With room for one more only by eviction, a call that repeats nothing drops one record,
      one fired least recently, keeps every other in its place in the order, and comes last. */
  lemma EvictsLeastRecent(s: seq<Alert>, c: Call)
    requires |s| == 1000 && forall i :: 0 <= i < |s| ==> !Matches(s[i], c)
    ensures exists k: nat ::
              && IsOldest(s, k) && Fire(s, c).alerts == s[..k] + s[k + 1..] + [Created(c)]
              && Fire(s, c).lost == s[k].occurrences && Fire(s, c).id == |s| - 1
  {
    assert IsOldest(s, Oldest(s));
  }

  // ---------------------------------------------------------------- the listing

  /** The places, from i on, of the records listed. */
  function Places(s: seq<Alert>, i: nat, room: nat, now: U64): (p: seq<nat>)
    requires i <= |s|
    ensures |p| <= room
    decreases |s| - i
  {
    if i == |s| || room == 0 then []
    else if Active(s[i], now) then [i] + Places(s, i + 1, room - 1, now)
    else Places(s, i + 1, room, now)
  }

  /** The places hold active records. */
  lemma {:induction false} PlaceIsActive(s: seq<Alert>, i: nat, room: nat, now: U64, j: nat)
    requires i <= |s| && j < |Places(s, i, room, now)|
    ensures var k := Places(s, i, room, now)[j]; i <= k < |s| && Active(s[k], now)
    decreases |s| - i
  {
    if !Active(s[i], now) {
      PlaceIsActive(s, i + 1, room, now, j);
    } else if j > 0 {
      PlaceIsActive(s, i + 1, room - 1, now, j - 1);
    }
  }

  /** The places rise. */
  lemma {:induction false} PlacesRise(s: seq<Alert>, i: nat, room: nat, now: U64, j: nat, k: nat)
    requires i <= |s| && j < k < |Places(s, i, room, now)|
    ensures Places(s, i, room, now)[j] < Places(s, i, room, now)[k]
    decreases |s| - i
  {
    if !Active(s[i], now) {
      PlacesRise(s, i + 1, room, now, j, k);
    } else if j > 0 {
      PlacesRise(s, i + 1, room - 1, now, j - 1, k - 1);
    } else {
      PlaceIsActive(s, i + 1, room - 1, now, k - 1);
    }
  }

  /** An active record is left out only when the room is used up by earlier ones. */
  lemma {:induction false} NoActiveIsSkipped(s: seq<Alert>, i: nat, room: nat, now: U64, k: nat)
    requires i <= k < |s| && Active(s[k], now)
    ensures var p := Places(s, i, room, now);
            k in p || (|p| == room && forall j :: 0 <= j < |p| ==> p[j] < k)
    decreases |s| - i
  {
    if room > 0 && !(i == k) {
      NoActiveIsSkipped(s, i + 1, if Active(s[i], now) then room - 1 else room, now, k);
    }
  }

  /** The listing is the records at those places, in that order. */
  lemma {:induction false} ListsTheFirstActive(s: seq<Alert>, i: nat, room: nat, now: U64)
    requires i <= |s|
    ensures var p := Places(s, i, room, now);
            var t := ActiveFrom(s, i, room, now);
            |t| == |p| && forall j :: 0 <= j < |p| ==> p[j] < |s| && t[j] == s[p[j]]
    decreases |s| - i
  {
    if i < |s| && room > 0 {
      if Active(s[i], now) {
        ListsTheFirstActive(s, i + 1, room - 1, now);
        var p, t := Places(s, i, room, now), ActiveFrom(s, i, room, now);
        assert p[1..] == Places(s, i + 1, room - 1, now) && t[1..] == ActiveFrom(s, i + 1, room - 1, now);
        assert forall j :: 0 < j < |p| ==> p[j] == p[1..][j - 1] && t[j] == t[1..][j - 1];
      } else {
        ListsTheFirstActive(s, i + 1, room, now);
      }
    }
  }

  // ---------------------------------------------------------------- what a call leaves behind

  function FireAll(s: seq<Alert>, c: Call, times: seq<U64>): (u: seq<Alert>)
    requires |s| <= ALERT_MAX_ACTIVE
    decreases |times|
  {
    if times == [] then s else FireAll(Fire(s, c.(ts := times[0])).alerts, c, times[1..])
  }

  /** Each time comes within the cooldown of the one before. */
  predicate Burst(times: seq<U64>, last: U64, cooldown: nat)
    decreases |times|
  {
    times == [] || (last <= times[0] < last + cooldown && Burst(times[1..], times[0], cooldown))
  }

  /** However long a condition goes on, repeated within its cooldown it stays one record, the
      one there is: only its last time and its occurrences move. */
  lemma {:induction false} BurstStaysOneRecord(s: seq<Alert>, c: Call, k: nat, times: seq<U64>)
    requires k < |s| <= ALERT_MAX_ACTIVE && s[k].component == c.component && s[k].condition == c.condition
    requires forall j :: 0 <= j < k && s[j].component == c.component && s[j].condition == c.condition ==>
               s[j].lastTs + Cooldown(c.severity) <= s[k].lastTs
    requires Burst(times, s[k].lastTs, Cooldown(c.severity)) && s[k].occurrences + |times| < TWO_32
    ensures var n: U32 := s[k].occurrences + |times|;
            FireAll(s, c, times) ==
            s[k := s[k].(lastTs := if times == [] then s[k].lastTs else times[|times| - 1], occurrences := n)]
    decreases |times|
  {
    if times != [] {
      var a := Touched(s[k], times[0]);
      assert MatchFrom(s, c.(ts := times[0]), 0) == k;
      BurstStaysOneRecord(s[k := a], c, k, times[1..]);
    }
  }

  /** A field keeps the longest prefix of a text that leaves room for its end. */
  predicate Kept(field: string, text: string, size: nat) {
    field <= text && |field| < size && (field == text || |field| == size - 1)
  }

  /** A call that repeats nothing is listed at once, with its own texts as far as their fields
      reach, unless the listing is full. */
  lemma FiredIsListed(s: seq<Alert>, c: Call, max: nat)
    requires |s| <= ALERT_MAX_ACTIVE <= max && forall i :: 0 <= i < |s| ==> !Matches(s[i], c)
    ensures exists a :: a in GetActive(Fire(s, c).alerts, max, c.ts)
              && a.severity == c.severity && a.firstTs == a.lastTs == c.ts && a.occurrences == 1
              && Kept(a.component, c.component, 32) && Kept(a.condition, c.condition, 64)
              && Kept(a.currentValue, c.currentValue, 32) && Kept(a.threshold, c.threshold, 32)
              && Kept(a.suggestion, c.suggestion, 128)
  {
    var u := Fire(s, c).alerts;
    var last := |u| - 1;
    assert u[last] == Created(c);
    ActiveIsPlaced(u, max, c.ts, last);
    ListsTheFirstActive(u, 0, max, c.ts);
    var j :| 0 <= j < |Places(u, 0, max, c.ts)| && Places(u, 0, max, c.ts)[j] == last;
    assert GetActive(u, max, c.ts)[j] == Created(c);
  }

  /** With room for every record each active one has a place. */
  lemma ActiveIsPlaced(s: seq<Alert>, max: nat, now: U64, k: nat)
    requires k < |s| <= max && Active(s[k], now)
    ensures k in Places(s, 0, max, now)
  {
    var p := Places(s, 0, max, now);
    NoActiveIsSkipped(s, 0, max, now, k);
    if k !in p {
      PlaceIsBeyond(s, 0, max, now, max - 1);
    }
  }

  lemma {:induction false} PlaceIsBeyond(s: seq<Alert>, i: nat, room: nat, now: U64, j: nat)
    requires i <= |s| && j < |Places(s, i, room, now)|
    ensures Places(s, i, room, now)[j] >= i + j
    decreases |s| - i
  {
    if !Active(s[i], now) {
      PlaceIsBeyond(s, i + 1, room, now, j);
    } else if j > 0 {
      PlaceIsBeyond(s, i + 1, room - 1, now, j - 1);
    }
  }

  // ---------------------------------------------------------------- where it fails

  /** Every stored name fits its field. */
  ghost predicate Stored(s: seq<Alert>) {
    forall i :: 0 <= i < |s| ==> |s[i].component| < COMPONENT_SIZE && |s[i].condition| < CONDITION_SIZE
  }

  lemma {:induction false} RunKeepsStored(l: Bounded, es: seq<Event>)
    requires Stored(l.alerts)
    ensures Stored(Run(l, es).alerts)
    decreases |es|
  {
    if es != [] {
      RunKeepsStored(Step(l, es[0]), es[1..]);
    }
  }

  /** After any run, a call made again inside its cooldown is recognised as a repetition if
      and only if both its names fit their fields: longer names are stored cut off and never
      match. */
  lemma RepetitionIsRecognisedIff(es: seq<Event>, c: Call, later: U64)
    requires c.ts <= later < c.ts + Cooldown(c.severity)
    ensures var s := Run(EMPTY, es + [Raise(c)]).alerts;
            MatchFrom(s, c.(ts := later), 0) < |s| <==> NamesFit(c)
  {
    RunSnoc(EMPTY, es, Raise(c));
    RunKeepsStored(EMPTY, es + [Raise(c)]);
    var before := Run(EMPTY, es).alerts;
    var s := Run(EMPTY, es + [Raise(c)]).alerts;
    var r := Fire(before, c);
    assert s == r.alerts && s[r.id].lastTs == c.ts;
    if NamesFit(c) {
      assert Matches(s[r.id], c.(ts := later));
    }
  }

  lemma {:induction false} RunSnoc(l: Bounded, es: seq<Event>, e: Event)
    ensures Run(l, es + [e]) == Step(Run(l, es), e)
    decreases |es|
  {
    if es == [] {
      assert es + [e] == [e] && [e][1..] == [];
    } else {
      assert (es + [e])[1..] == es[1..] + [e];
      RunSnoc(Step(l, es[0]), es[1..], e);
    }
  }
}
