/** The alert state: records in a fixed array, the first `count` of them in use. */
module AlertEngine {
  import opened AlertModel
  import opened Words

  class AlertState {
    const alerts: array<Alert>
    var count: nat

    ghost predicate Valid()
      reads this
    {
      alerts.Length == ALERT_MAX_ACTIVE && count <= ALERT_MAX_ACTIVE
    }

    ghost function Contents(): (s: seq<Alert>)
      requires Valid()
      reads this, alerts
      ensures |s| == count
    {
      alerts[..count]
    }

    /** alert_state_init */
    constructor ()
      ensures Valid() && fresh(alerts) && Contents() == []
    {
      var zero := Alert(0, 0, Info, "", "", "", "", "", 0);
      alerts := new Alert[ALERT_MAX_ACTIVE](_ => zero);
      count := 0;
    }

    /** The loop that looks for a record the call repeats. */
    method FindMatch(c: Call) returns (i: nat)
      requires Valid()
      ensures i == MatchFrom(Contents(), c, 0)
    {
      i := 0;
      while i < count
        invariant i <= count
        invariant MatchFrom(Contents(), c, i) == MatchFrom(Contents(), c, 0)
      {
        var a := alerts[i];
        if a.component == c.component && a.condition == c.condition && Elapsed(c.ts, a.lastTs) < Cooldown(c.severity) {
          return;
        }
        i := i + 1;
      }
    }

    /** The loop that looks for the record to evict. */
    method FindOldest() returns (oldest: nat)
      requires Valid() && count > 0
      ensures oldest == Oldest(Contents())
    {
      oldest := 0;
      var oldestTs := alerts[0].lastTs;
      var i := 1;
      while i < count
        invariant 1 <= i <= count
        invariant oldest < i && oldestTs == alerts[oldest].lastTs
        invariant IsOldest(Contents()[..i], oldest)
        invariant OldestFrom(Contents(), i, oldest) == Oldest(Contents())
      {
        OldestExtends(Contents(), i, oldest);
        if alerts[i].lastTs < oldestTs {
          oldestTs := alerts[i].lastTs;
          oldest := i;
        }
        i := i + 1;
      }
      assert Contents()[..i] == Contents();
    }

    /** Moves the records behind place k one place forward. */
    method Remove(k: nat)
      requires Valid() && k < count
      modifies this, alerts
      ensures Valid() && Contents() == Without(old(Contents()), k)
    {
      ghost var before := Contents();
      ghost var after := Without(before, k);
      var i := k;
      while i + 1 < count
        invariant k <= i < count == old(count)
        invariant forall j :: 0 <= j < i ==> alerts[j] == after[j]
        invariant forall j :: i < j < count ==> alerts[j] == before[j]
      {
        alerts[i] := alerts[i + 1];
        i := i + 1;
      }
      count := count - 1;
      assert Contents() == after;
    }

    /** alert_fire: the place of the record that was repeated or added. */
    method Fire(c: Call) returns (id: nat)
      requires Valid()
      modifies this, alerts
      ensures Valid()
      ensures var r := AlertModel.Fire(old(Contents()), c); Contents() == r.alerts && id == r.id
    {
      id := FindMatch(c);
      if id < count {
        var a := alerts[id];
        alerts[id] := Touched(a, c.ts);
        assert Contents() == old(Contents())[id := Touched(a, c.ts)];
        return;
      }
      if count >= ALERT_MAX_ACTIVE {
        var oldest := FindOldest();
        Remove(oldest);
      }
      ghost var before := Contents();
      alerts[count] := Created(c);
      id := count;
      count := count + 1;
      assert Contents() == before + [Created(c)];
    }

    /** alert_get_active into a buffer with room for out.Length records. */
    method GetActive(out: array<Alert>, now: U64) returns (written: nat)
      requires Valid() && out != alerts
      modifies out
      ensures written <= out.Length && out[..written] == AlertModel.GetActive(Contents(), out.Length, now)
      ensures out[written..] == old(out[written..])
    {
      written := 0;
      var i := 0;
      while i < count && written < out.Length
        invariant i <= count && written <= out.Length
        invariant Contents() == old(Contents()) && out[written..] == old(out[written..])
        invariant out[..written] + ActiveFrom(Contents(), i, out.Length - written, now)
                  == AlertModel.GetActive(Contents(), out.Length, now)
      {
        var a := alerts[i];
        if Elapsed(now, a.lastTs) < Cooldown(a.severity) {
          out[written] := a;
          written := written + 1;
          assert out[..written] == out[..written - 1] + [a];
        }
        i := i + 1;
      }
    }

    /** alert_clear_all */
    method ClearAll()
      requires Valid()
      modifies this`count
      ensures Valid() && Contents() == []
    {
      count := 0;
    }
  }
}
