/**
 * apscheduler's SimpleTrigger: a one-shot trigger that fires once, at its run
 * date. Dates are integer timestamps; the run date is fixed when the trigger
 * is made and never changes.
 */
module SimpleTriggers {
  import opened Wrappers
  import opened Decimal

  /** A trigger holding the date it is to run at (the value __init__ stores). */
  datatype SimpleTrigger = SimpleTrigger(runDate: int)

  /** get_next_fire_time: the run date, unless it lies before `startDate`, in
      which case there is no fire time (Python's implicit None). */
  function GetNextFireTime(t: SimpleTrigger, startDate: int): (r: Option<int>)
    ensures r.Some? <==> startDate <= t.runDate
    ensures r.Some? ==> r.value == t.runDate
  {
    if t.runDate >= startDate then Some(t.runDate) else None
  }

  /** __str__. */
  function Describe(t: SimpleTrigger): (s: string)
    ensures |s| >= 7 && s[..5] == "date[" && s[|s| - 1] == ']'
  {
    "date[" + IntToString(t.runDate) + "]"
  }

  /** __repr__. The run date stands for itself here: being an integer stand-in
      for a datetime, its repr is its decimal spelling. */
  function Repr(t: SimpleTrigger): (s: string)
    ensures |s| > 27 && s[..25] == "<SimpleTrigger (run_date=" && s[|s| - 2..] == ")>"
  {
    "<SimpleTrigger (run_date=" + IntToString(t.runDate) + ")>"
  }

  /** Reads a run date back out of the text __str__ produces. */
  function ParseDescription(s: string): Option<int> {
    if |s| >= 6 && s[..5] == "date[" && s[|s| - 1] == ']' then ParseInt(s[5..|s| - 1]) else None
  }

  /** Reads a run date back out of the text __repr__ produces. */
  function ParseRepr(s: string): Option<int> {
    if |s| >= 27 && s[..25] == "<SimpleTrigger (run_date=" && s[|s| - 2..] == ")>"
    then ParseInt(s[25..|s| - 2])
    else None
  }

  // ---------------------------------------------------------------------------
  // When the trigger fires.

  /** The trigger fires at its run date exactly: a start equal to the run date still fires. */
  lemma FiresAtBoundary(t: SimpleTrigger)
    ensures GetNextFireTime(t, t.runDate) == Some(t.runDate)
    ensures GetNextFireTime(t, t.runDate + 1) == None
  {
  }

  /** A fire time is never earlier than the start it was asked for. */
  lemma NeverBeforeStart(t: SimpleTrigger, startDate: int)
    ensures match GetNextFireTime(t, startDate) case None => true case Some(d) => startDate <= d
  {
  }

  /** One shot: whatever the start, the only date the trigger ever gives is the
      date it was made with. */
  lemma OnlyOneFireTime(runDate: int, start1: int, start2: int)
    requires GetNextFireTime(SimpleTrigger(runDate), start1).Some?
    requires GetNextFireTime(SimpleTrigger(runDate), start2).Some?
    ensures GetNextFireTime(SimpleTrigger(runDate), start1) == GetNextFireTime(SimpleTrigger(runDate), start2)
        == Some(runDate)
  {
  }

  /** Asking from a later start never brings a fire time back: once the run
      date is missed, there is none; before that, the answer does not change. */
  lemma LaterStartFiresLess(t: SimpleTrigger, earlier: int, later: int)
    requires earlier <= later
    ensures GetNextFireTime(t, earlier).None? ==> GetNextFireTime(t, later).None?
    ensures GetNextFireTime(t, later).Some? ==> GetNextFireTime(t, earlier) == GetNextFireTime(t, later)
  {
  }

  // ---------------------------------------------------------------------------
  // How a trigger prints.

  /** The description names the run date: it can be read back. */
  lemma DescriptionRoundTrip(t: SimpleTrigger)
    ensures ParseDescription(Describe(t)) == Some(t.runDate)
  {
    var s := Describe(t);
    assert s[5..|s| - 1] == IntToString(t.runDate);
    ParseIntToString(t.runDate);
  }

  /** Triggers with different run dates print differently. */
  lemma DescriptionsDiffer(t: SimpleTrigger, u: SimpleTrigger)
    requires Describe(t) == Describe(u)
    ensures t == u
  {
    DescriptionRoundTrip(t);
    DescriptionRoundTrip(u);
  }

  /** The representation names the run date: it can be read back. */
  lemma ReprRoundTrip(t: SimpleTrigger)
    ensures ParseRepr(Repr(t)) == Some(t.runDate)
  {
    var s := Repr(t);
    assert s[25..|s| - 2] == IntToString(t.runDate);
    ParseIntToString(t.runDate);
  }

  /** Triggers with different run dates have different representations. */
  lemma ReprsDiffer(t: SimpleTrigger, u: SimpleTrigger)
    requires Repr(t) == Repr(u)
    ensures t == u
  {
    ReprRoundTrip(t);
    ReprRoundTrip(u);
  }
}
