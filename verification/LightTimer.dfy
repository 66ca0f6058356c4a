/** The light as one flat timed automaton, and what holds over all its runs. */
module LightTimer {

  const AUTO_OFF_LONG_DELAY_SECONDS := 30 * 60
  const AUTO_OFF_SHORT_DELAY_SECONDS := 5

  datatype Event = Idle | Toggle | Other

  datatype Mode = Normal | Delay

  /** `since` is when the mode was entered; `settled` says that an idle or toggle event has been
      handled since the light went on. */
  datatype Light = Off | On(mode: Mode, since: int, settled: bool)

  datatype Tick = Tick(event: Event, now: int)

  predicate Expired(l: Light, now: int)
    requires l.On?
  {
    match l.mode
    case Normal => now - l.since > AUTO_OFF_LONG_DELAY_SECONDS
    case Delay => now - l.since >= AUTO_OFF_SHORT_DELAY_SECONDS
  }

  function After(l: Light, tick: Tick): Light {
    match (l, tick.event)
    case (Off, Toggle) => On(Normal, tick.now, false)
    case (Off, _) => Off
    case (On(mode, _, _), Toggle) => On(if mode == Normal then Delay else Normal, tick.now, true)
    case (On(_, _, _), Idle) => if Expired(l, tick.now) then Off else l.(settled := true)
    case (On(_, _, settled), Other) => if settled then l else Off
  }

  /** The light after the first n ticks, which starts switched off. */
  function AfterTicks(ticks: seq<Tick>, n: nat): Light
    requires n <= |ticks|
  {
    if n == 0 then Off else After(AfterTicks(ticks, n - 1), ticks[n - 1])
  }

  predicate InMode(l: Light, mode: Mode, since: int) {
    l.On? && l.mode == mode && l.since == since
  }

  /** The mode was entered by toggle number j and has lasted through the n-th tick. */
  ghost predicate EnteredBy(ticks: seq<Tick>, j: nat, n: nat, mode: Mode, since: int)
    requires j < n <= |ticks|
  {
    && ticks[j] == Tick(Toggle, since)
    && forall i :: j < i <= n ==> InMode(AfterTicks(ticks, i), mode, since)
  }

  /** Whenever the light is on, some toggle entered the present mode and nothing has left it since. */
  lemma {:induction false} ModeWasEntered(ticks: seq<Tick>, n: nat) returns (j: nat)
    requires n <= |ticks| && AfterTicks(ticks, n).On?
    ensures j < n && EnteredBy(ticks, j, n, AfterTicks(ticks, n).mode, AfterTicks(ticks, n).since)
  {
    var l, before, tick := AfterTicks(ticks, n), AfterTicks(ticks, n - 1), ticks[n - 1];
    if tick.event == Toggle {
      j := n - 1;
    } else {
      j := ModeWasEntered(ticks, n - 1);
      forall i | j < i <= n ensures InMode(AfterTicks(ticks, i), l.mode, l.since) {
        assert i < n ==> InMode(AfterTicks(ticks, i), before.mode, before.since);
      }
    }
  }

  /** With idle and toggle events only, the light goes off at nothing but an idle event that comes
      more than 1800 s after the toggle that entered normal mode, or at least 5 s after the one that
      entered delay mode, the mode having lasted in between. */
  lemma OffOnlyAfterTimeout(ticks: seq<Tick>, n: nat) returns (j: nat)
    requires n < |ticks| && (forall k :: 0 <= k <= n ==> ticks[k].event != Other)
    requires AfterTicks(ticks, n).On? && AfterTicks(ticks, n + 1).Off?
    ensures ticks[n].event == Idle && j < n
    ensures var mode := AfterTicks(ticks, n).mode;
      && EnteredBy(ticks, j, n, mode, ticks[j].now)
      && (if mode == Normal then ticks[n].now - ticks[j].now > AUTO_OFF_LONG_DELAY_SECONDS
          else ticks[n].now - ticks[j].now >= AUTO_OFF_SHORT_DELAY_SECONDS)
  {
    j := ModeWasEntered(ticks, n);
  }

  /** An idle event switches the light off if and only if the time of its mode has passed since the
      toggle that entered the mode: it is never left on for longer. */
  lemma IdleEnforcesTimeout(ticks: seq<Tick>, n: nat) returns (j: nat)
    requires n < |ticks| && ticks[n].event == Idle && AfterTicks(ticks, n).On?
    ensures j < n && EnteredBy(ticks, j, n, AfterTicks(ticks, n).mode, ticks[j].now)
    ensures var passed := ticks[n].now - ticks[j].now;
      AfterTicks(ticks, n + 1).On?
      <==>
      if AfterTicks(ticks, n).mode == Normal then passed <= AUTO_OFF_LONG_DELAY_SECONDS
      else passed < AUTO_OFF_SHORT_DELAY_SECONDS
    ensures AfterTicks(ticks, n + 1).On? ==> EnteredBy(ticks, j, n + 1, AfterTicks(ticks, n).mode, ticks[j].now)
  {
    j := ModeWasEntered(ticks, n);
  }

  /** Whether any tick from j on, before n, was an idle or toggle event. */
  ghost predicate Heard(ticks: seq<Tick>, j: nat, n: nat)
    requires n <= |ticks|
  {
    exists k :: j <= k < n && ticks[k].event != Other
  }

  /** The toggle that switched the light on. */
  ghost predicate SwitchedOnBy(ticks: seq<Tick>, j: nat, n: nat)
    requires j < n <= |ticks|
  {
    AfterTicks(ticks, j).Off? && forall i :: j < i <= n ==> AfterTicks(ticks, i).On?
  }

  lemma {:induction false} SettledOnceHeard(ticks: seq<Tick>, j: nat, n: nat)
    requires j < n <= |ticks| && SwitchedOnBy(ticks, j, n)
    ensures AfterTicks(ticks, n).settled <==> Heard(ticks, j + 1, n)
  {
    if n > j + 1 {
      assert SwitchedOnBy(ticks, j, n - 1);
      SettledOnceHeard(ticks, j, n - 1);
      assert AfterTicks(ticks, n - 1).On?;
      assert Heard(ticks, j + 1, n) <==> Heard(ticks, j + 1, n - 1) || ticks[n - 1].event != Other;
    }
  }

  /** An event that is neither idle nor toggle switches the light off exactly when no other event
      has been handled since it went on; otherwise it changes nothing. */
  lemma UnknownEvent(ticks: seq<Tick>, j: nat, n: nat)
    requires j < n < |ticks| && SwitchedOnBy(ticks, j, n) && ticks[n].event == Other
    ensures AfterTicks(ticks, n + 1) == if Heard(ticks, j + 1, n) then AfterTicks(ticks, n) else Off
  {
    SettledOnceHeard(ticks, j, n);
  }

  // ---------- toggles ----------

  /** The light goes on at a toggle and at nothing else, in normal mode from then. */
  lemma GoesOnExactly(ticks: seq<Tick>, n: nat)
    requires n < |ticks| && AfterTicks(ticks, n).Off?
    ensures AfterTicks(ticks, n + 1).On? <==> ticks[n].event == Toggle
    ensures AfterTicks(ticks, n + 1).On? ==> InMode(AfterTicks(ticks, n + 1), Normal, ticks[n].now)
  {
  }

  /** How many of the ticks from i on, before n, are toggles. */
  function Toggles(ticks: seq<Tick>, i: nat, n: nat): nat
    requires i <= n <= |ticks|
  {
    if n == i then 0 else Toggles(ticks, i, n - 1) + if ticks[n - 1].event == Toggle then 1 else 0
  }

  /** While the light is on every toggle changes its mode: it is normal if and only if an even number of
      toggles followed the one that switched it on. */
  lemma {:induction false} ModeCountsToggles(ticks: seq<Tick>, j: nat, n: nat)
    requires j < n <= |ticks| && SwitchedOnBy(ticks, j, n)
    ensures AfterTicks(ticks, n).mode == Normal <==> Toggles(ticks, j + 1, n) % 2 == 0
    ensures ticks[n - 1].event == Toggle ==> AfterTicks(ticks, n).since == ticks[n - 1].now
  {
    if n == j + 1 {
      assert AfterTicks(ticks, j + 1).On?;
    } else {
      assert SwitchedOnBy(ticks, j, n - 1) && AfterTicks(ticks, n).On? && AfterTicks(ticks, n - 1).On?;
      ModeCountsToggles(ticks, j, n - 1);
    }
  }
}
