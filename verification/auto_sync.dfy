/**
 * The nightly scheduler: it wakes at 03:00 and runs a full sync every day in
 * September and October and on the last day of every other month.
 */
module AutoSync {
  import opened Wrappers
  import opened Calendar

  const TargetSecond := 3 * 3600

  /** `_should_run_today`: daily in September and October, else on the month's last day. */
  function ShouldRunToday(today: Date): (run: bool)
    requires ValidDate(today)
    ensures today.month == 9 || today.month == 10 ==> run
    ensures today.month != 9 && today.month != 10 ==> (run <==> today.day == DaysInMonth(today.year, today.month))
  {
    if today.month == 9 || today.month == 10 then true
    else NextDay(today).month != today.month
  }

  /** The wake-up time of one scheduler round: 03:00 today, or tomorrow once that has passed. */
  function NextTarget(now: Moment): (target: int)
    requires ValidMoment(now)
    ensures Timestamp(now) < target <= Timestamp(now) + SecondsPerDay
    ensures target % SecondsPerDay == TargetSecond
  {
    var today := Ordinal(now.date) * SecondsPerDay + TargetSecond;
    if Timestamp(now) >= today then today + SecondsPerDay else today
  }

  /** One round of `_scheduler_loop`: when it started, the day it woke on and how the sync went if run. */
  datatype Round = Round(start: Moment, wokeOn: Date, syncOutcome: Result<()>)

  /** The rounds among the first `n` that ran and whose sync failed. */
  ghost function FailedRounds(rounds: seq<Round>, ran: seq<bool>, n: nat): set<int>
    requires n <= |rounds| && n <= |ran|
  {
    set j | 0 <= j < n && ran[j] && rounds[j].syncOutcome.Failure?
  }

  /** One more round adds its index to the failures exactly when it ran and failed. */
  lemma FailedRoundsSnoc(rounds: seq<Round>, ran: seq<bool>, run: bool, i: nat)
    requires i < |rounds| && |ran| == i
    ensures var ran' := ran + [run];
      FailedRounds(rounds, ran', i + 1)
        == if run && rounds[i].syncOutcome.Failure? then FailedRounds(rounds, ran, i) + {i} else FailedRounds(rounds, ran, i)
    ensures i !in FailedRounds(rounds, ran, i)
  {
    var ran' := ran + [run];
    assert forall j :: 0 <= j < i ==> ran'[j] == ran[j];
  }

  predicate ValidRounds(rounds: seq<Round>)
  {
    forall i | 0 <= i < |rounds| :: ValidMoment(rounds[i].start) && ValidDate(rounds[i].wokeOn)
  }

  /** The wake-up target of each round, in order. */
  ghost function Targets(rounds: seq<Round>): (ts: seq<int>)
    requires ValidRounds(rounds)
    ensures |ts| == |rounds|
    decreases |rounds|
  {
    if rounds == [] then []
    else Targets(rounds[..|rounds| - 1]) + [NextTarget(rounds[|rounds| - 1].start)]
  }

  /** Whether each round ran the sync, in order. */
  ghost function Runs(rounds: seq<Round>): (rs: seq<bool>)
    requires ValidRounds(rounds)
    ensures |rs| == |rounds|
    decreases |rounds|
  {
    if rounds == [] then []
    else Runs(rounds[..|rounds| - 1]) + [ShouldRunToday(rounds[|rounds| - 1].wokeOn)]
  }

  /** Round `j`'s entries of `Targets` and `Runs` are its own target and decision. */
  lemma {:induction false} RoundsAt(rounds: seq<Round>)
    requires ValidRounds(rounds)
    ensures forall j :: 0 <= j < |rounds| ==> Targets(rounds)[j] == NextTarget(rounds[j].start)
    ensures forall j :: 0 <= j < |rounds| ==> Runs(rounds)[j] == ShouldRunToday(rounds[j].wokeOn)
    decreases |rounds|
  {
    if rounds != [] {
      var init := rounds[..|rounds| - 1];
      assert ValidRounds(init) by {
        forall i | 0 <= i < |init| ensures ValidMoment(init[i].start) && ValidDate(init[i].wokeOn) {
          assert init[i] == rounds[i];
        }
      }
      RoundsAt(init);
    }
  }

  /** The prefixes of a valid list of rounds are valid, and grow by one round at a time. */
  lemma RoundsPrefix(rounds: seq<Round>, i: nat)
    requires ValidRounds(rounds) && i < |rounds|
    ensures ValidRounds(rounds[..i]) && ValidRounds(rounds[..i + 1]) && rounds[..i + 1][..i] == rounds[..i]
    ensures Targets(rounds[..i + 1]) == Targets(rounds[..i]) + [NextTarget(rounds[i].start)]
    ensures Runs(rounds[..i + 1]) == Runs(rounds[..i]) + [ShouldRunToday(rounds[i].wokeOn)]
  {
    assert rounds[..i + 1][..i] == rounds[..i];
  }

  /**
   * The first `|rounds|` rounds of `_scheduler_loop`. A sync that raises is
   * caught and logged, so every round runs to its end and the next one starts.
   */
  method SchedulerRounds(rounds: seq<Round>) returns (targets: seq<int>, ran: seq<bool>, failed: nat)
    requires ValidRounds(rounds)
    ensures |targets| == |rounds| && |ran| == |rounds|
    ensures forall i :: 0 <= i < |rounds| ==> targets[i] == NextTarget(rounds[i].start)
    ensures forall i :: 0 <= i < |rounds| ==> ran[i] == ShouldRunToday(rounds[i].wokeOn)
    ensures failed == |set i | 0 <= i < |rounds| && ran[i] && rounds[i].syncOutcome.Failure?|
  {
    targets, ran, failed := [], [], 0;
    var i := 0;
    while i < |rounds|
      invariant 0 <= i <= |rounds|
      invariant ValidRounds(rounds[..i])
      invariant targets == Targets(rounds[..i]) && ran == Runs(rounds[..i])
      invariant failed == |FailedRounds(rounds, ran, i)|
    {
      var round := rounds[i];
      RoundsPrefix(rounds, i);
      targets := targets + [NextTarget(round.start)];
      var run := ShouldRunToday(round.wokeOn);
      FailedRoundsSnoc(rounds, ran, run, i);
      ran := ran + [run];
      if run {
        match round.syncOutcome
        case Failure(_) =>
          failed := failed + 1;
        case Success(_) =>
      }
      i := i + 1;
    }
    assert rounds[..i] == rounds;
    RoundsAt(rounds);
  }
}
