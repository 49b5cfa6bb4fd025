/** The coalescing rebuild machine of the shell watcher (scripts/dev-shell.ts:57-58, 96-121): change
    notifications arm a debounce timer, the timer asks for a rebuild, and a request that arrives while
    a rebuild runs is remembered and served when it settles. Callbacks run one at a time, in any order
    the event loop picks. */
module DevShell {
  import opened Wrappers

  /** What the watcher went through, in order. `Settled` is the end of a rebuild, failed or not. */
  datatype Mark = Changed | Fired | Started | Settled

  /** `timer` is the script's `debounceTimer`; `live` are the timers the runtime may still fire, and
      `made` counts the timers ever made. */
  datatype State = State(rebuilding: bool, pending: bool, timer: Option<nat>, live: set<nat>, made: nat, log: seq<Mark>)

  datatype Event = Change | Fire(id: nat) | Settle

  const INIT := State(false, false, None, {}, 0, [])

  // ----- What each callback does -----

  function Scheduled(s: State): State {
    State(s.rebuilding, s.pending, Some(s.made),
          (if s.timer.Some? then s.live - {s.timer.value} else s.live) + {s.made}, s.made + 1, s.log + [Changed])
  }

  function Requested(s: State): State {
    if s.rebuilding then s.(pending := true) else s.(rebuilding := true, log := s.log + [Started])
  }

  function TimerFired(s: State, id: nat): State {
    Requested(s.(timer := None, live := s.live - {id}, log := s.log + [Fired]))
  }

  function SettledNow(s: State): State {
    var t := s.(rebuilding := false, log := s.log + [Settled]);
    if t.pending then Requested(t.(pending := false)) else t
  }

  /** The rebuilds under way: those that started and have not settled. */
  function Flying(log: seq<Mark>): int { Count(log, Started) - Count(log, Settled) }

  function Count(log: seq<Mark>, m: Mark): (n: nat) {
    if log == [] then 0 else Count(log[..|log| - 1], m) + if log[|log| - 1] == m then 1 else 0
  }

  /** The runtime fires only live timers and settles only rebuilds under way. */
  predicate Enabled(s: State, e: Event) {
    match e case Change => true case Fire(id) => id in s.live case Settle => Flying(s.log) > 0
  }

  function Next(s: State, e: Event): State {
    match e case Change => Scheduled(s) case Fire(id) => TimerFired(s, id) case Settle => SettledNow(s)
  }

  predicate Possible(events: seq<Event>) {
    events == [] || (Possible(events[..|events| - 1])
                     && Enabled(After(events[..|events| - 1]), events[|events| - 1]))
  }

  function After(events: seq<Event>): State {
    if events == [] then INIT else Next(After(events[..|events| - 1]), events[|events| - 1])
  }

  // ----- The script's own variables -----

  class Watcher {
    var rebuilding: bool
    var pending: bool
    var debounceTimer: Option<nat>
    ghost var live: set<nat>
    var made: nat
    ghost var log: seq<Mark>

    ghost function View(): State
      reads this
    {
      State(rebuilding, pending, debounceTimer, live, made, log)
    }

    constructor ()
      ensures View() == INIT
    {
      rebuilding, pending, debounceTimer, live, made, log := false, false, None, {}, 0, [];
    }

    /** A watched file changed: restart the debounce window. */
    method ScheduleRestart()
      modifies this
      ensures View() == Scheduled(old(View()))
    {
      log := log + [Changed];
      if debounceTimer.Some? { live := live - {debounceTimer.value}; }
      debounceTimer, live := Some(made), live + {made};
      made := made + 1;
    }

    /** The debounce timer's callback. */
    method OnTimer(id: nat)
      modifies this
      ensures View() == TimerFired(old(View()), id)
    {
      live, log := live - {id}, log + [Fired];
      debounceTimer := None;
      RequestRestart();
    }

    method RequestRestart()
      modifies this
      ensures View() == Requested(old(View()))
    {
      if rebuilding {
        pending := true;
        return;
      }
      rebuilding := true;
      log := log + [Started];
    }

    /** The `finally` callback of a rebuild. */
    method OnSettled()
      modifies this
      ensures View() == SettledNow(old(View()))
    {
      log := log + [Settled];
      rebuilding := false;
      if pending {
        pending := false;
        RequestRestart();
      }
    }
  }

  // ----- What every run keeps -----

  ghost predicate StartsAfter(log: seq<Mark>, i: nat) {
    exists j :: i < j < |log| && log[j] == Started
  }

  /** Every change has a rebuild that started after it, or one is still owed. */
  ghost predicate NothingLost(s: State) {
    forall i | 0 <= i < |s.log| && s.log[i] == Changed :: s.timer.Some? || s.pending || StartsAfter(s.log, i)
  }

  /** At every point of the log, no rebuild or one is under way. */
  ghost predicate OneAtATime(log: seq<Mark>) {
    forall n | 0 <= n <= |log| :: 0 <= Flying(log[..n]) <= 1
  }

  ghost predicate Sound(s: State) {
    && (s.pending ==> s.rebuilding)
    && s.live == (if s.timer.Some? then {s.timer.value} else {})
    && Flying(s.log) == (if s.rebuilding then 1 else 0)
    && OneAtATime(s.log)
    && NothingLost(s)
    && Count(s.log, Started) + (if s.pending then 1 else 0) <= Count(s.log, Fired)
    && Count(s.log, Fired) + (if s.timer.Some? then 1 else 0) <= Count(s.log, Changed)
  }

  lemma CountPush(log: seq<Mark>, m: Mark)
    ensures forall k :: Count(log + [m], k) == Count(log, k) + if k == m then 1 else 0
  {
    assert (log + [m])[..|log|] == log;
  }

  lemma OneAtATimePush(log: seq<Mark>, m: Mark)
    requires OneAtATime(log) && 0 <= Flying(log + [m]) <= 1
    ensures OneAtATime(log + [m])
  {
    forall n | 0 <= n <= |log| + 1 ensures 0 <= Flying((log + [m])[..n]) <= 1 {
      if n <= |log| {
        assert (log + [m])[..n] == log[..n];
      } else {
        assert (log + [m])[..n] == log + [m];
      }
    }
  }

  lemma StartsAfterPush(log: seq<Mark>, m: Mark)
    ensures forall i | 0 <= i < |log| && StartsAfter(log, i) :: StartsAfter(log + [m], i)
    ensures m == Started ==> forall i | 0 <= i < |log| :: StartsAfter(log + [m], i)
  {
    forall i | 0 <= i < |log| && StartsAfter(log, i) ensures StartsAfter(log + [m], i) {
      var j :| i < j < |log| && log[j] == Started;
      assert (log + [m])[j] == Started;
    }
    if m == Started {
      forall i | 0 <= i < |log| ensures StartsAfter(log + [m], i) {
        assert (log + [m])[|log|] == Started;
      }
    }
  }

  /** A request, made with the fire it answers already logged, keeps everything but the debt it settles. */
  lemma RequestKeeps(s: State)
    requires s.pending ==> s.rebuilding
    requires s.live == (if s.timer.Some? then {s.timer.value} else {})
    requires Flying(s.log) == (if s.rebuilding then 1 else 0) && OneAtATime(s.log)
    requires Count(s.log, Started) < Count(s.log, Fired)
    requires Count(s.log, Fired) + (if s.timer.Some? then 1 else 0) <= Count(s.log, Changed)
    ensures Sound(Requested(s))
  {
    if !s.rebuilding {
      CountPush(s.log, Started);
      OneAtATimePush(s.log, Started);
      StartsAfterPush(s.log, Started);
    }
  }

  lemma ChangeKeeps(s: State)
    requires Sound(s)
    ensures Sound(Scheduled(s))
  {
    CountPush(s.log, Changed);
    OneAtATimePush(s.log, Changed);
    hide Count, Flying, OneAtATime;
  }

  lemma FireKeeps(s: State, id: nat)
    requires Sound(s) && id in s.live
    ensures Sound(TimerFired(s, id))
  {
    hide NothingLost, StartsAfter, Requested;
    CountPush(s.log, Fired);
    OneAtATimePush(s.log, Fired);
    RequestKeeps(s.(timer := None, live := s.live - {id}, log := s.log + [Fired]));
  }

  lemma SettleKeeps(s: State)
    requires Sound(s) && Flying(s.log) > 0
    ensures Sound(SettledNow(s))
  {
    CountPush(s.log, Settled);
    OneAtATimePush(s.log, Settled);
    if s.pending {
      hide NothingLost, StartsAfter, Requested;
      RequestKeeps(s.(rebuilding := false, pending := false, log := s.log + [Settled]));
    } else {
      StartsAfterPush(s.log, Settled);
      hide Count, OneAtATime;
    }
  }

  lemma StepKeeps(s: State, e: Event)
    requires Sound(s) && Enabled(s, e)
    ensures Sound(Next(s, e))
  {
    hide Sound, Scheduled, TimerFired, SettledNow;
    match e
    case Change => ChangeKeeps(s);
    case Fire(id) => FireKeeps(s, id);
    case Settle => SettleKeeps(s);
  }

  lemma {:induction false} RunKeeps(events: seq<Event>)
    requires Possible(events)
    ensures Sound(After(events))
  {
    if events == [] {
      assert INIT.log[..0] == [];
    } else {
      RunKeeps(events[..|events| - 1]);
      StepKeeps(After(events[..|events| - 1]), events[|events| - 1]);
    }
  }

  // ----- What that means for the developer -----

  /** No timer is armed and no rebuild runs. */
  predicate Idle(s: State) { s.timer.None? && !s.rebuilding }

  lemma CountPrefix(log: seq<Mark>, n: nat, m: Mark)
    requires n <= |log|
    ensures Count(log[..n], m) <= Count(log, m)
    ensures Count(log[..n], m) < Count(log, m) ==> exists k :: n <= k < |log| && log[k] == m
  {
    if n < |log| {
      var init := log[..|log| - 1];
      CountPrefix(init, n, m);
      assert init[..n] == log[..n];
      if Count(log[..n], m) < Count(init, m) {
        var k :| n <= k < |init| && init[k] == m;
        assert log[k] == m;
      }
    } else {
      assert log[..n] == log;
    }
  }

  /** At any moment of any run, no rebuild or one is under way, and one is whenever a request waits. */
  lemma OneRebuildAtATime(events: seq<Event>, n: nat)
    requires Possible(events) && n <= |After(events).log|
    ensures 0 <= Flying(After(events).log[..n]) <= 1
    ensures After(events).pending ==> Flying(After(events).log) == 1
  {
    RunKeeps(events);
  }

  /** When no rebuild is under way, each that started has settled. */
  lemma StartSettles(log: seq<Mark>, j: nat)
    requires OneAtATime(log) && Flying(log) == 0 && j < |log| && log[j] == Started
    ensures exists k :: j < k < |log| && log[k] == Settled
  {
    assert Flying(log[..j]) >= 0;
    hide OneAtATime;
    CountPush(log[..j], Started);
    assert log[..j + 1] == log[..j] + [Started];
    CountPrefix(log, j + 1, Started);
    CountPrefix(log, j + 1, Settled);
  }

  /** Every change on which the script sits idle was followed by a rebuild that started after it and settled. */
  lemma IdleIsCurrent(events: seq<Event>, i: nat)
    requires Possible(events) && Idle(After(events))
    requires i < |After(events).log| && After(events).log[i] == Changed
    ensures exists j, k ::
              i < j < k < |After(events).log| && After(events).log[j] == Started && After(events).log[k] == Settled
  {
    RunKeeps(events);
    var log := After(events).log;
    assert StartsAfter(log, i);
    hide Possible, After, OneAtATime, NothingLost, Flying;
    var j :| i < j < |log| && log[j] == Started;
    StartSettles(log, j);
  }

  /** Between two moments with no settling in between, at most one rebuild starts. */
  lemma OneStart(log: seq<Mark>, a: nat, b: nat)
    requires OneAtATime(log) && a <= b <= |log|
    requires forall k | a <= k < b :: log[k] != Settled
    ensures Count(log[..b], Started) <= Count(log[..a], Started) + 1
  {
    assert 0 <= Flying(log[..a]) && Flying(log[..b]) <= 1;
    hide OneAtATime;
    CountPrefix(log[..b], a, Settled);
    assert log[..b][..a] == log[..a];
  }

  /** Bursts collapse: while a rebuild runs, however many requests arrive, none starts until it settles;
      and over a whole run rebuilds never outnumber timer fires, nor those the changes. */
  lemma BurstsCollapse(events: seq<Event>, a: nat, b: nat)
    requires Possible(events) && a <= b <= |After(events).log|
    requires forall k | a <= k < b :: After(events).log[k] != Settled
    ensures Count(After(events).log[..b], Started) <= Count(After(events).log[..a], Started) + 1
    ensures Count(After(events).log, Started) <= Count(After(events).log, Fired) <= Count(After(events).log, Changed)
  {
    RunKeeps(events);
    hide Possible, After, OneAtATime, NothingLost, Flying, Count;
    OneStart(After(events).log, a, b);
  }

  // ----- What happens once the edits stop -----

  /** What is owed: a fire may cost a pending request, a pending request a rebuild, a rebuild its end. */
  function Owed(s: State): (n: nat)
    ensures n <= 4
  {
    (if s.timer.Some? then 2 else 0) + (if s.pending then 1 else 0) + (if s.rebuilding then 1 else 0)
  }

  predicate Quiet(events: seq<Event>) { forall i | 0 <= i < |events| :: events[i] != Change }

  lemma {:induction false} QuietRunPays(events: seq<Event>, rest: seq<Event>)
    requires Possible(events + rest) && Quiet(rest)
    ensures Possible(events)
    ensures Owed(After(events + rest)) + |rest| <= Owed(After(events))
  {
    if rest == [] {
      assert events + rest == events;
    } else {
      var last := rest[|rest| - 1];
      assert (events + rest)[..|events + rest| - 1] == events + rest[..|rest| - 1];
      assert (events + rest)[|events + rest| - 1] == last;
      QuietRunPays(events, rest[..|rest| - 1]);
      RunKeeps(events + rest[..|rest| - 1]);
    }
  }

  /** Once the edits stop the watcher can take at most four more steps; while it is not idle it can take
      one, and when it can take none it is idle, every change rebuilt. */
  lemma EditsSettle(events: seq<Event>, rest: seq<Event>)
    requires Possible(events + rest) && Quiet(rest)
    ensures |rest| <= 4
    ensures Idle(After(events + rest)) <==> !exists e :: e != Change && Enabled(After(events + rest), e)
  {
    QuietRunPays(events, rest);
    RunKeeps(events + rest);
    var s := After(events + rest);
    if !Idle(s) {
      assert if s.timer.Some? then Enabled(s, Fire(s.timer.value)) else Enabled(s, Settle);
    }
  }
}
