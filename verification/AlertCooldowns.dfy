/** The cooldowns in milliseconds, as callers meet them: when a call makes a new record, what
    index it is given, and which records are listed. */
module AlertCooldowns {
  import opened AlertModel
  import opened Words

  /** A record last fired d ms ago is past its cooldown. */
  predicate Expired(severity: Severity, d: nat) {
    match severity
    case Crit => d >= 30000
    case Warn => d >= 60000
    case Info => d >= 300000
    case Other => d >= 60000
  }

  lemma ExpiredIff(severity: Severity, d: nat)
    ensures Expired(severity, d) <==> d >= Cooldown(severity)
  {
  }

  lemma {:induction false} ClockedSnoc(es: seq<Event>, c: Call, now: U64)
    requires Clocked(es, now) && EndTime(es, now) <= c.ts
    ensures Clocked(es + [Raise(c)], now) && EndTime(es + [Raise(c)], now) == c.ts
    decreases |es|
  {
    var all := es + [Raise(c)];
    if es == [] {
      assert all == [Raise(c)] && all[1..] == [];
    } else {
      assert all[1..] == es[1..] + [Raise(c)];
      ClockedSnoc(es[1..], c, if es[0].Raise? then es[0].call.ts else now);
    }
  }

  /** Under a clock that does not go back, no record is from after the last call, whose own
      record is the one at the index returned. */
  lemma AfterCall(es: seq<Event>, c: Call)
    requires Clocked(es, 0) && EndTime(es, 0) <= c.ts
    ensures var s := Run(EMPTY, es + [Raise(c)]).alerts;
            var id := Fire(Run(EMPTY, es).alerts, c).id;
            && Timed(s, c.ts) && id < |s| && s[id].lastTs == c.ts
            && (NamesFit(c) ==> s[id].component == c.component && s[id].condition == c.condition)
  {
    ClockedSnoc(es, c, 0);
    RunKeepsOrder(EMPTY, es + [Raise(c)], 0);
    RunSnoc(EMPTY, es, Raise(c));
  }

  lemma NoneRepeated(s: seq<Alert>, c: Call, last: U64)
    requires |s| <= ALERT_MAX_ACTIVE && Timed(s, last) && last <= c.ts && Expired(c.severity, c.ts - last)
    ensures Fire(s, c).alerts[Fire(s, c).id].firstTs == c.ts
  {
    ExpiredIff(c.severity, c.ts - last);
    forall j | 0 <= j < |s| ensures !Matches(s[j], c) {
      assert Elapsed(c.ts, s[j].lastTs) >= c.ts - last;
    }
  }

  /** After any run, a call repeated d ms later makes a new record if and only if d has reached
      30 s for a critical alert, 60 s for a warning, 300 s for information and 60 s for any
      other severity; sooner it is counted in the record there is. */
  lemma NewRecordIff(es: seq<Event>, c: Call, d: nat)
    requires Clocked(es, 0) && EndTime(es, 0) <= c.ts && NamesFit(c)
    requires 0 < d && c.ts + d < TWO_64
    ensures var later: U64 := c.ts + d;
            var t := Run(EMPTY, es + [Raise(c)] + [Raise(c.(ts := later))]).alerts;
            (exists k :: 0 <= k < |t| && t[k].firstTs == later) <==> Expired(c.severity, d)
  {
    var later: U64 := c.ts + d;
    var again := c.(ts := later);
    AfterCall(es, c);
    RunSnoc(EMPTY, es + [Raise(c)], Raise(again));
    var s := Run(EMPTY, es + [Raise(c)]).alerts;
    var r := Fire(s, again);
    if Expired(c.severity, d) {
      NoneRepeated(s, again, c.ts);
      assert r.alerts[r.id].firstTs == later;
    } else {
      ExpiredIff(c.severity, d);
      var id := Fire(Run(EMPTY, es).alerts, c).id;
      assert Matches(s[id], again);
    }
  }

  /** A listing with room for all holds exactly the records within the cooldown of their own
      severity since they were last fired. */
  lemma IsListedIff(s: seq<Alert>, a: Alert, max: nat, now: U64)
    requires |s| <= max
    ensures a in GetActive(s, max, now) <==> a in s && !Expired(a.severity, Elapsed(now, a.lastTs))
  {
    var p, t := Places(s, 0, max, now), GetActive(s, max, now);
    ListsTheFirstActive(s, 0, max, now);
    ExpiredIff(a.severity, Elapsed(now, a.lastTs));
    if a in t {
      var j :| 0 <= j < |t| && t[j] == a;
      PlaceIsActive(s, 0, max, now, j);
    }
    if a in s && Active(a, now) {
      var k :| 0 <= k < |s| && s[k] == a;
      ActiveIsPlaced(s, max, now, k);
      var j :| 0 <= j < |p| && p[j] == k;
      assert t[j] == a;
    }
  }

  /** The index returned is that of the first record the call repeats, which then has the
      call's time and one occurrence more, and else nothing new; no other record changes. If
      it repeats none, it is the last index, of a record as old as the call. */
  lemma FireReturnsPlace(s: seq<Alert>, c: Call)
    requires |s| <= 1000
    ensures var r := Fire(s, c);
            && (forall k :: 0 <= k < |s| && Matches(s[k], c) && (forall j :: 0 <= j < k ==> !Matches(s[j], c)) ==>
                  && r.id == k && r.lost == 0 && |r.alerts| == |s|
                  && r.alerts[k] == s[k].(lastTs := c.ts, occurrences := r.alerts[k].occurrences)
                  && r.alerts[k].occurrences == (if s[k].occurrences == 0xFFFF_FFFF then 0 else s[k].occurrences + 1)
                  && forall j :: 0 <= j < |s| && j != k ==> r.alerts[j] == s[j])
            && ((forall j :: 0 <= j < |s| ==> !Matches(s[j], c)) ==>
                  && r.id == |r.alerts| - 1 && |r.alerts| == (if |s| < 1000 then |s| + 1 else 1000)
                  && r.alerts[r.id].firstTs == r.alerts[r.id].lastTs == c.ts && r.alerts[r.id].occurrences == 1)
  {
    var k := MatchFrom(s, c, 0);
    if k < |s| {
      assert Matches(s[k], c);
    }
  }
}
