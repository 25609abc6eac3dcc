/** The path debouncer.  Trigger and the callback's delete hold the lock; the expiry of a
    timer, the delete and the fire are separate steps that anything may come between.
    Resetting a timer that has already expired arms it once more. */
module Debouncer {

  type Path = string

  /** A timer is bound to the path it was created for. */
  datatype Timer = Timer(path: Path, serial: nat)

  /** A running callback, from the expiry of its timer until its fire. */
  datatype Callback = Callback(path: Path, expiredAt: nat, deleted: bool)

  /** `armed` gives each armed timer's deadline.  `last`, `settled`, `triggers` and `fires`
      only record what happened: the time of a path's last trigger, whether a timer has
      since run its full delay and its callback fired, and how often either happened. */
  datatype State = State(
    now: nat,
    pending: map<Path, Timer>,
    armed: map<Timer, nat>,
    inFlight: map<nat, Callback>,
    nextTimer: nat,
    nextCallback: nat,
    last: map<Path, nat>,
    settled: set<Path>,
    triggers: multiset<Path>,
    fires: multiset<Path>)

  const START := State(0, map[], map[], map[], 0, 0, map[], {}, multiset{}, multiset{})

  datatype Action = Tick(dt: nat) | Trigger(path: Path) | Expire(t: Timer) | Delete(c: nat) | Fire(c: nat)

  predicate Enabled(s: State, a: Action) {
    match a
    case Tick(_) => true
    case Trigger(_) => true
    case Expire(t) => t in s.armed && s.armed[t] <= s.now
    case Delete(c) => c in s.inFlight && !s.inFlight[c].deleted
    case Fire(c) => c in s.inFlight && s.inFlight[c].deleted
  }

  function Next(delay: nat, s: State, a: Action): State
    requires Enabled(s, a)
  {
    match a
    case Tick(dt) => s.(now := s.now + dt)
    case Trigger(p) => Triggered(delay, s, p)
    case Expire(t) =>
      s.(armed := s.armed - {t},
         inFlight := s.inFlight[s.nextCallback := Callback(t.path, s.now, false)],
         nextCallback := s.nextCallback + 1)
    case Delete(c) => Deleted(s, c)
    case Fire(c) => Fired(delay, s, c)
  }

  function Triggered(delay: nat, s: State, p: Path): State {
    var s := s.(last := s.last[p := s.now], settled := s.settled - {p}, triggers := s.triggers + multiset{p});
    if p in s.pending then
      s.(armed := s.armed[s.pending[p] := s.now + delay])
    else
      var t := Timer(p, s.nextTimer);
      s.(pending := s.pending[p := t], armed := s.armed[t := s.now + delay], nextTimer := s.nextTimer + 1)
  }

  function Deleted(s: State, c: nat): State
    requires c in s.inFlight
  {
    s.(pending := s.pending - {s.inFlight[c].path}, inFlight := s.inFlight[c := s.inFlight[c].(deleted := true)])
  }

  /** The timer of callback `c` had run a full delay since the last trigger of its path. */
  predicate IsSettling(delay: nat, s: State, c: nat)
    requires c in s.inFlight
  {
    var cb := s.inFlight[c];
    cb.path in s.last ==> s.last[cb.path] + delay <= cb.expiredAt
  }

  function Fired(delay: nat, s: State, c: nat): State
    requires c in s.inFlight
  {
    var p := s.inFlight[c].path;
    s.(inFlight := s.inFlight - {c},
       settled := if IsSettling(delay, s, c) then s.settled + {p} else s.settled,
       fires := s.fires + multiset{p})
  }

  ghost predicate Step(delay: nat, s: State, a: Action, t: State) {
    Enabled(s, a) && t == Next(delay, s, a)
  }

  ghost predicate IsRun(delay: nat, states: seq<State>, actions: seq<Action>) {
    && |states| == |actions| + 1 && states[0] == START
    && forall i {:trigger actions[i]} :: 0 <= i < |actions| ==> Step(delay, states[i], actions[i], states[i + 1])
  }

  // ----- no trigger is lost -----

  ghost predicate WellFormed(s: State) {
    && (forall p :: p in s.pending ==> s.pending[p].path == p && s.pending[p].serial < s.nextTimer)
    && (forall t :: t in s.armed ==> t.serial < s.nextTimer && t.path in s.last)
    && (forall c :: c in s.inFlight ==>
          c < s.nextCallback && s.inFlight[c].path in s.last && s.inFlight[c].expiredAt <= s.now)
    && (forall p :: p in s.last ==> s.last[p] <= s.now)
  }

  ghost predicate ArmedFor(s: State, p: Path, deadline: nat) {
    exists t :: t in s.armed && t.path == p && s.armed[t] == deadline
  }

  ghost predicate InFlightSince(s: State, p: Path, time: nat) {
    exists c :: c in s.inFlight && s.inFlight[c].path == p && time <= s.inFlight[c].expiredAt
  }

  /** A timer is armed for, or a callback comes from, a full delay after the last trigger. */
  ghost predicate Covered(delay: nat, s: State, p: Path)
    requires p in s.last
  {
    ArmedFor(s, p, s.last[p] + delay) || InFlightSince(s, p, s.last[p] + delay)
  }

  ghost predicate Inv(delay: nat, s: State) {
    WellFormed(s) && forall p :: p in s.last && p !in s.settled ==> Covered(delay, s, p)
  }

  lemma StepKeepsWellFormed(delay: nat, s: State, a: Action, t: State)
    requires WellFormed(s) && Step(delay, s, a, t)
    ensures WellFormed(t)
  {
  }

  lemma TriggerCovers(delay: nat, s: State, p: Path)
    requires WellFormed(s)
    ensures Covered(delay, Triggered(delay, s, p), p)
  {
    var t := Triggered(delay, s, p);
    var timer := t.pending[p];
    assert timer in t.armed && timer.path == p && t.armed[timer] == t.last[p] + delay;
  }

  lemma StepKeepsCovered(delay: nat, s: State, a: Action, t: State, p: Path)
    requires Inv(delay, s) && Step(delay, s, a, t) && p in t.last && p !in t.settled
    ensures Covered(delay, t, p)
  {
    if a == Trigger(p) {
      TriggerCovers(delay, s, p);
    } else {
      assert p in s.last && s.last[p] == t.last[p] && p !in s.settled;
      var due := s.last[p] + delay;
      if ArmedFor(s, p, due) {
        var timer :| timer in s.armed && timer.path == p && s.armed[timer] == due;
        if a == Expire(timer) {
          assert t.inFlight[s.nextCallback] == Callback(p, s.now, false);
        } else {
          assert timer in t.armed && t.armed[timer] == due;
        }
      } else {
        var c :| c in s.inFlight && s.inFlight[c].path == p && due <= s.inFlight[c].expiredAt;
        assert c in t.inFlight && t.inFlight[c].path == p && t.inFlight[c].expiredAt == s.inFlight[c].expiredAt;
      }
    }
  }

  lemma InvIsKept(delay: nat, s: State, a: Action, t: State)
    requires Inv(delay, s) && Step(delay, s, a, t)
    ensures Inv(delay, t)
  {
    StepKeepsWellFormed(delay, s, a, t);
    forall p | p in t.last && p !in t.settled
      ensures Covered(delay, t, p)
    {
      StepKeepsCovered(delay, s, a, t, p);
    }
  }

  lemma {:induction false} RunKeepsInv(delay: nat, states: seq<State>, actions: seq<Action>, i: nat)
    requires IsRun(delay, states, actions) && i < |states|
    ensures Inv(delay, states[i])
  {
    if i > 0 {
      RunKeepsInv(delay, states, actions, i - 1);
      var a := actions[i - 1];
      InvIsKept(delay, states[i - 1], a, states[i]);
    }
  }

  /** No trigger is lost: in every reachable state a path whose last trigger has not been
      followed by a fire a full delay later is covered.  So once no timer is armed and no
      callback is in flight, every triggered path has had that fire. */
  lemma NoTriggerIsLost(delay: nat, states: seq<State>, actions: seq<Action>, i: nat, p: Path)
    requires IsRun(delay, states, actions) && i < |states| && p in states[i].last
    ensures p in states[i].settled || Covered(delay, states[i], p)
    ensures states[i].armed == map[] && states[i].inFlight == map[] ==> p in states[i].settled
  {
    RunKeepsInv(delay, states, actions, i);
  }

  // ----- fires and triggers, counted -----

  ghost function ArmedOf(s: State, p: Path): set<Timer> {
    set t | t in s.armed && t.path == p
  }

  ghost function InFlightOf(s: State, p: Path): set<nat> {
    set c | c in s.inFlight && s.inFlight[c].path == p
  }

  /** Fires that have happened or are still to come without another trigger. */
  ghost function Owed(s: State, p: Path): nat {
    s.fires[p] + |InFlightOf(s, p)| + |ArmedOf(s, p)|
  }

  lemma TriggerArmsOne(s: State, timer: Timer, deadline: nat, t: State, p: Path)
    requires t.armed == s.armed[timer := deadline]
    ensures |ArmedOf(t, p)| <= |ArmedOf(s, p)| + if timer.path == p then 1 else 0
  {
    if timer.path == p {
      assert ArmedOf(t, p) == ArmedOf(s, p) + {timer};
    } else {
      assert ArmedOf(t, p) == ArmedOf(s, p);
    }
  }

  lemma TriggerOwes(delay: nat, s: State, q: Path, p: Path)
    requires WellFormed(s)
    ensures var t := Triggered(delay, s, q); Owed(t, p) - Owed(s, p) <= t.triggers[p] - s.triggers[p]
  {
    var t := Triggered(delay, s, q);
    TriggerArmsOne(s, t.pending[q], s.now + delay, t, p);
    assert InFlightOf(t, p) == InFlightOf(s, p);
    assert t.triggers[p] == s.triggers[p] + if q == p then 1 else 0;
  }

  lemma ExpireDisarms(s: State, timer: Timer, t: State, p: Path)
    requires timer in s.armed && t.armed == s.armed - {timer}
    ensures |ArmedOf(t, p)| == |ArmedOf(s, p)| - if timer.path == p then 1 else 0
  {
    if timer.path == p {
      assert timer in ArmedOf(s, p);
      assert ArmedOf(t, p) == ArmedOf(s, p) - {timer};
    } else {
      assert ArmedOf(t, p) == ArmedOf(s, p);
    }
  }

  lemma ExpireStartsCallback(s: State, c: nat, cb: Callback, t: State, p: Path)
    requires c !in s.inFlight && t.inFlight == s.inFlight[c := cb]
    ensures |InFlightOf(t, p)| == |InFlightOf(s, p)| + if cb.path == p then 1 else 0
  {
    var more := if cb.path == p then {c} else {};
    assert c !in InFlightOf(s, p);
    assert InFlightOf(t, p) == InFlightOf(s, p) + more;
  }

  lemma ExpireOwes(delay: nat, s: State, timer: Timer, p: Path)
    requires WellFormed(s) && Enabled(s, Expire(timer))
    ensures Owed(Next(delay, s, Expire(timer)), p) == Owed(s, p)
  {
    var t := Next(delay, s, Expire(timer));
    ExpireDisarms(s, timer, t, p);
    ExpireStartsCallback(s, s.nextCallback, Callback(timer.path, s.now, false), t, p);
  }

  lemma FireOwes(delay: nat, s: State, c: nat, p: Path)
    requires c in s.inFlight
    ensures Owed(Fired(delay, s, c), p) == Owed(s, p)
  {
    var t := Fired(delay, s, c);
    assert InFlightOf(t, p) == InFlightOf(s, p) - {c} && ArmedOf(t, p) == ArmedOf(s, p);
    assert s.inFlight[c].path == p ==> c in InFlightOf(s, p);
  }

  lemma StepOwes(delay: nat, s: State, a: Action, t: State, p: Path)
    requires WellFormed(s) && Step(delay, s, a, t)
    ensures Owed(t, p) - Owed(s, p) <= t.triggers[p] - s.triggers[p]
  {
    match a
    case Trigger(q) => TriggerOwes(delay, s, q, p);
    case Expire(timer) => ExpireOwes(delay, s, timer, p);
    case Fire(c) => FireOwes(delay, s, c, p);
    case Tick(_) => assert InFlightOf(t, p) == InFlightOf(s, p) && ArmedOf(t, p) == ArmedOf(s, p);
    case Delete(_) => assert InFlightOf(t, p) == InFlightOf(s, p) && ArmedOf(t, p) == ArmedOf(s, p);
  }

  /** However steps interleave, a path never fires more often than it is triggered. */
  lemma {:induction false} FiresNeverOutnumberTriggers(delay: nat, states: seq<State>, actions: seq<Action>, i: nat, p: Path)
    requires IsRun(delay, states, actions) && i < |states|
    ensures states[i].fires[p] <= Owed(states[i], p) <= states[i].triggers[p]
  {
    if i == 0 {
      assert InFlightOf(START, p) == {} && ArmedOf(START, p) == {};
    } else {
      FiresNeverOutnumberTriggers(delay, states, actions, i - 1, p);
      RunKeepsInv(delay, states, actions, i - 1);
      var a := actions[i - 1];
      StepOwes(delay, states[i - 1], a, states[i], p);
    }
  }

  // ----- premature fires -----

  predicate IsCallbackOf(s: State, c: nat, p: Path) {
    c in s.inFlight && s.inFlight[c].path == p
  }

  /** A trigger of `p` that finds one of its callbacks in flight. */
  ghost predicate IsRace(s: State, a: Action, p: Path) {
    a == Trigger(p) && exists c :: IsCallbackOf(s, c, p)
  }

  /** A fire of `p` whose timer had not run a full delay since the last trigger, or the
      second fire since then. */
  ghost predicate IsPremature(delay: nat, s: State, a: Action, p: Path) {
    a.Fire? && IsCallbackOf(s, a.c, p) && (!IsSettling(delay, s, a.c) || p in s.settled)
  }

  ghost predicate HasRace(states: seq<State>, actions: seq<Action>, n: nat, p: Path)
    requires n <= |actions| < |states|
  {
    exists i {:trigger actions[i]} :: 0 <= i < n && IsRace(states[i], actions[i], p)
  }

  ghost predicate HasPrematureFire(delay: nat, states: seq<State>, actions: seq<Action>, p: Path)
    requires |actions| < |states|
  {
    exists i {:trigger actions[i]} :: 0 <= i < |actions| && IsPremature(delay, states[i], actions[i], p)
  }

  /** As long as no trigger races, a path has one timer, armed for a full delay after the
      last trigger, or one callback from then, or neither. */
  ghost predicate Orderly(delay: nat, s: State, p: Path) {
    && (forall t :: t in s.armed && t.path == p ==> p in s.pending && s.pending[p] == t)
    && (p in s.pending && s.pending[p] in s.armed ==>
          && p in s.last && p !in s.settled && s.armed[s.pending[p]] == s.last[p] + delay
          && forall c :: !IsCallbackOf(s, c, p))
    && (p in s.pending && s.pending[p] !in s.armed ==> exists c :: IsCallbackOf(s, c, p))
    && (forall c :: IsCallbackOf(s, c, p) ==>
          && p in s.last && p !in s.settled && IsSettling(delay, s, c)
          && (s.inFlight[c].deleted ==> p !in s.pending))
    && (forall c, d :: IsCallbackOf(s, c, p) && IsCallbackOf(s, d, p) ==> c == d)
  }

  lemma TriggerKeepsOrderly(delay: nat, s: State, q: Path, p: Path)
    requires WellFormed(s) && Orderly(delay, s, p) && !IsRace(s, Trigger(q), p)
    ensures Orderly(delay, Triggered(delay, s, q), p)
  {
    if q == p {
      OwnTriggerKeepsOrderly(delay, s, p);
    } else {
      OtherTriggerKeepsOrderly(delay, s, q, p);
    }
  }

  /** With no callback in flight a trigger leaves one timer, armed a full delay ahead. */
  lemma OwnTriggerKeepsOrderly(delay: nat, s: State, p: Path)
    requires WellFormed(s) && Orderly(delay, s, p) && forall c :: !IsCallbackOf(s, c, p)
    ensures Orderly(delay, Triggered(delay, s, p), p)
  {
    var t := Triggered(delay, s, p);
    assert t.inFlight == s.inFlight;
    forall c ensures !IsCallbackOf(t, c, p) {
      assert !IsCallbackOf(s, c, p);
    }
    forall timer | timer in t.armed && timer.path == p ensures timer == t.pending[p] {
      if timer in s.armed {
        assert p in s.pending && s.pending[p] == timer;
      }
    }
  }

  /** Nothing about path `p` differs. */
  ghost predicate SameForPath(s: State, t: State, p: Path) {
    && t.inFlight == s.inFlight && (p in t.settled <==> p in s.settled)
    && (p in t.pending <==> p in s.pending) && (p in s.pending ==> t.pending[p] == s.pending[p])
    && (p in t.last <==> p in s.last) && (p in s.last ==> t.last[p] == s.last[p])
    && (forall timer: Timer {:trigger timer in t.armed} {:trigger timer in s.armed} :: timer.path == p ==>
          (timer in t.armed <==> timer in s.armed) && (timer in s.armed ==> t.armed[timer] == s.armed[timer]))
  }

  lemma FrameOrderly(delay: nat, s: State, t: State, p: Path)
    requires Orderly(delay, s, p) && SameForPath(s, t, p) && (p in s.pending ==> s.pending[p].path == p)
    ensures Orderly(delay, t, p)
  {
    assert forall c :: IsCallbackOf(t, c, p) <==> IsCallbackOf(s, c, p);
  }

  lemma OtherTriggerKeepsOrderly(delay: nat, s: State, q: Path, p: Path)
    requires WellFormed(s) && Orderly(delay, s, p) && q != p
    ensures Orderly(delay, Triggered(delay, s, q), p)
  {
    FrameOrderly(delay, s, Triggered(delay, s, q), p);
  }

  lemma ExpireKeepsOrderly(delay: nat, s: State, timer: Timer, p: Path)
    requires WellFormed(s) && Orderly(delay, s, p) && Enabled(s, Expire(timer))
    ensures Orderly(delay, Next(delay, s, Expire(timer)), p)
  {
    var t := Next(delay, s, Expire(timer));
    if timer.path == p {
      assert IsCallbackOf(t, s.nextCallback, p);
      assert forall c :: !IsCallbackOf(s, c, p);
      assert forall c :: IsCallbackOf(t, c, p) ==> IsCallbackOf(s, c, p) || c == s.nextCallback;
    } else {
      assert forall c :: IsCallbackOf(t, c, p) <==> IsCallbackOf(s, c, p);
    }
  }

  lemma DeleteKeepsOrderly(delay: nat, s: State, c: nat, p: Path)
    requires WellFormed(s) && Orderly(delay, s, p) && Enabled(s, Delete(c))
    ensures Orderly(delay, Deleted(s, c), p)
  {
    var t := Deleted(s, c);
    assert forall d :: IsCallbackOf(t, d, p) <==> IsCallbackOf(s, d, p);
    assert IsCallbackOf(s, c, s.inFlight[c].path);
  }

  lemma FireKeepsOrderly(delay: nat, s: State, c: nat, p: Path)
    requires WellFormed(s) && Orderly(delay, s, p) && Enabled(s, Fire(c))
    ensures Orderly(delay, Fired(delay, s, c), p)
  {
    var t := Fired(delay, s, c);
    assert forall d :: IsCallbackOf(t, d, p) <==> IsCallbackOf(s, d, p) && d != c;
    assert IsCallbackOf(s, c, s.inFlight[c].path);
  }

  lemma StepKeepsOrderly(delay: nat, s: State, a: Action, t: State, p: Path)
    requires WellFormed(s) && Orderly(delay, s, p) && Step(delay, s, a, t) && !IsRace(s, a, p)
    ensures Orderly(delay, t, p)
  {
    match a
    case Trigger(q) => TriggerKeepsOrderly(delay, s, q, p);
    case Expire(timer) => ExpireKeepsOrderly(delay, s, timer, p);
    case Delete(c) => DeleteKeepsOrderly(delay, s, c, p);
    case Fire(c) => FireKeepsOrderly(delay, s, c, p);
    case Tick(_) => assert forall c :: IsCallbackOf(t, c, p) <==> IsCallbackOf(s, c, p);
  }

  lemma {:induction false} RaceFreeIsOrderly(delay: nat, states: seq<State>, actions: seq<Action>, i: nat, p: Path)
    requires IsRun(delay, states, actions) && i < |states| && !HasRace(states, actions, i, p)
    ensures Orderly(delay, states[i], p)
  {
    if i > 0 {
      RaceFreeIsOrderly(delay, states, actions, i - 1, p);
      RunKeepsInv(delay, states, actions, i - 1);
      var a := actions[i - 1];
      StepKeepsOrderly(delay, states[i - 1], a, states[i], p);
    }
  }

  /** A callback that a trigger raced stays behind that trigger until it fires. */
  lemma {:induction false} RacedCallbackFires(delay: nat, states: seq<State>, actions: seq<Action>, i: nat, c: nat, p: Path)
    returns (j: nat)
    requires IsRun(delay, states, actions) && i < |states| && states[|actions|].inFlight == map[]
    requires IsCallbackOf(states[i], c, p) && p in states[i].last && !IsSettling(delay, states[i], c)
    ensures j < |actions| && IsPremature(delay, states[j], actions[j], p)
    decreases |states| - i
  {
    RunKeepsInv(delay, states, actions, i);
    var a := actions[i];
    if a == Fire(c) {
      j := i;
    } else {
      var s, t := states[i], states[i + 1];
      assert Step(delay, s, a, t);
      assert IsCallbackOf(t, c, p) && t.inFlight[c].expiredAt == s.inFlight[c].expiredAt;
      assert p in t.last && s.last[p] <= t.last[p];
      j := RacedCallbackFires(delay, states, actions, i + 1, c, p);
    }
  }

  /** In a run that ends with no callback in flight some fire of `p` is premature if and
      only if some trigger of `p` came between a timer's expiry and its callback's fire.
      Otherwise every fire comes a full delay after the last trigger, once per burst. */
  lemma PrematureIffRace(delay: nat, states: seq<State>, actions: seq<Action>, p: Path)
    requires IsRun(delay, states, actions) && delay > 0 && states[|actions|].inFlight == map[]
    ensures HasPrematureFire(delay, states, actions, p) <==> HasRace(states, actions, |actions|, p)
  {
    if HasRace(states, actions, |actions|, p) {
      var i :| 0 <= i < |actions| && IsRace(states[i], actions[i], p);
      var j := RaceLeadsToPremature(delay, states, actions, i, p);
      var fire := actions[j];
    } else if HasPrematureFire(delay, states, actions, p) {
      var i :| 0 <= i < |actions| && IsPremature(delay, states[i], actions[i], p);
      PrematureNeedsRace(delay, states, actions, i, p);
    }
  }

  lemma RaceLeadsToPremature(delay: nat, states: seq<State>, actions: seq<Action>, i: nat, p: Path) returns (j: nat)
    requires IsRun(delay, states, actions) && delay > 0 && states[|actions|].inFlight == map[]
    requires i < |actions| && IsRace(states[i], actions[i], p)
    ensures j < |actions| && IsPremature(delay, states[j], actions[j], p)
  {
    var s, a := states[i], actions[i];
    var c :| IsCallbackOf(s, c, p);
    RunKeepsInv(delay, states, actions, i);
    assert Step(delay, s, a, states[i + 1]);
    assert IsCallbackOf(states[i + 1], c, p);
    j := RacedCallbackFires(delay, states, actions, i + 1, c, p);
  }

  lemma PrematureNeedsRace(delay: nat, states: seq<State>, actions: seq<Action>, i: nat, p: Path)
    requires IsRun(delay, states, actions) && i < |actions| && IsPremature(delay, states[i], actions[i], p)
    ensures HasRace(states, actions, i, p) && HasRace(states, actions, |actions|, p)
  {
    if !HasRace(states, actions, i, p) {
      RaceFreeIsOrderly(delay, states, actions, i, p);
    }
    var k :| 0 <= k < i && IsRace(states[k], actions[k], p);
    var race := actions[k];
  }

  /** Both happen: two triggers in one burst, the second between expiry and delete. */
  lemma RaceIsReachable(delay: nat, p: Path) returns (states: seq<State>, actions: seq<Action>)
    requires delay > 0
    ensures IsRun(delay, states, actions) && states[|actions|].inFlight == map[]
    ensures HasRace(states, actions, |actions|, p) && HasPrematureFire(delay, states, actions, p)
  {
    var timer := Timer(p, 0);
    var s0 := START;
    var s1 := Next(delay, s0, Trigger(p));
    var s2 := Next(delay, s1, Tick(delay));
    var s3 := Next(delay, s2, Expire(timer));
    var s4 := Next(delay, s3, Trigger(p));
    var s5 := Next(delay, s4, Delete(0));
    var s6 := Next(delay, s5, Fire(0));
    states := [s0, s1, s2, s3, s4, s5, s6];
    actions := [Trigger(p), Tick(delay), Expire(timer), Trigger(p), Delete(0), Fire(0)];
    assert s6.inFlight == map[];
    assert IsCallbackOf(states[3], 0, p) && IsRace(states[3], actions[3], p);
    assert IsPremature(delay, states[5], actions[5], p);
  }

  // ----- expiry atomic with its callback -----

  /** Timers expire on time and their callbacks finish before anything else happens. */
  ghost predicate IsAtomic(s: State, a: Action) {
    match a
    case Tick(dt) => s.inFlight == map[] && forall t :: t in s.armed ==> s.now + dt <= s.armed[t]
    case Trigger(_) => s.inFlight == map[]
    case _ => true
  }

  ghost predicate OnTime(s: State) {
    && (forall t :: t in s.armed ==> s.now <= s.armed[t])
    && (forall c :: c in s.inFlight ==> s.inFlight[c].expiredAt == s.now)
  }

  ghost predicate IsAtomicRun(delay: nat, states: seq<State>, actions: seq<Action>) {
    && IsRun(delay, states, actions)
    && forall i {:trigger actions[i]} :: 0 <= i < |actions| ==> IsAtomic(states[i], actions[i])
  }

  lemma {:induction false} AtomicRunIsOnTime(delay: nat, states: seq<State>, actions: seq<Action>, i: nat)
    requires IsAtomicRun(delay, states, actions) && i < |states|
    ensures OnTime(states[i])
  {
    if i > 0 {
      AtomicRunIsOnTime(delay, states, actions, i - 1);
      var a := actions[i - 1];
      assert Step(delay, states[i - 1], a, states[i]);
    }
  }

  /** When expiry is atomic with its callback, every fire comes exactly `delay` after the
      last trigger of its path, and is the only one since that trigger. */
  lemma AtomicFiresExactly(delay: nat, states: seq<State>, actions: seq<Action>, i: nat)
    requires IsAtomicRun(delay, states, actions) && i < |actions| && actions[i].Fire?
    ensures actions[i].c in states[i].inFlight
    ensures var p := states[i].inFlight[actions[i].c].path;
      && p in states[i].last && states[i].now == states[i].last[p] + delay
      && p !in states[i].settled && p in states[i + 1].settled
  {
    var s, a := states[i], actions[i];
    assert Step(delay, s, a, states[i + 1]);
    var p := s.inFlight[a.c].path;
    assert IsCallbackOf(s, a.c, p);
    AtomicRunIsOnTime(delay, states, actions, i);
    AtomicRunIsExact(delay, states, actions, i, p);
    RaceFreeIsOrderly(delay, states, actions, i, p);
  }

  /** Callbacks of an atomic run expired exactly when due. */
  lemma {:induction false} AtomicRunIsExact(delay: nat, states: seq<State>, actions: seq<Action>, i: nat, p: Path)
    requires IsAtomicRun(delay, states, actions) && i < |states|
    ensures !HasRace(states, actions, i, p)
    ensures forall c :: IsCallbackOf(states[i], c, p) && p in states[i].last ==>
      states[i].inFlight[c].expiredAt <= states[i].last[p] + delay
  {
    if i > 0 {
      AtomicRunIsExact(delay, states, actions, i - 1, p);
      AtomicRunIsOnTime(delay, states, actions, i - 1);
      RaceFreeIsOrderly(delay, states, actions, i - 1, p);
      var s, a, t := states[i - 1], actions[i - 1], states[i];
      assert Step(delay, s, a, t);
      assert !IsRace(s, a, p);
      forall c | IsCallbackOf(t, c, p) && p in t.last
        ensures t.inFlight[c].expiredAt <= t.last[p] + delay
      {
        if IsCallbackOf(s, c, p) {
        } else {
          assert a.Expire? && c == s.nextCallback;
        }
      }
    }
  }

  // ----- the debouncer itself -----

  /** What Trigger and the callback do to the debouncer's fields, the timers it has armed
      and the callbacks in flight. */
  class Debouncer {
    const delay: nat
    var state: State

    constructor (delay: nat)
      ensures this.delay == delay && state == START && Inv(delay, state)
    {
      this.delay, this.state := delay, START;
    }

    method Trigger(path: Path)
      requires Inv(delay, state)
      modifies this
      ensures Inv(delay, state) && Step(delay, old(state), Action.Trigger(path), state)
      ensures path in state.pending && path !in state.settled && ArmedFor(state, path, state.now + delay)
    {
      ghost var before := state;
      var timer;
      if path in state.pending {
        timer := state.pending[path];
      } else {
        timer := Timer(path, state.nextTimer);
        state := state.(pending := state.pending[path := timer], nextTimer := state.nextTimer + 1);
      }
      state := state.(armed := state.armed[timer := state.now + delay]);
      state := state.(last := state.last[path := state.now], settled := state.settled - {path},
                      triggers := state.triggers + multiset{path});
      assert timer in state.armed && timer.path == path;
      InvIsKept(delay, before, Action.Trigger(path), state);
    }
  }
}
