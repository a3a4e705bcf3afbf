/** The channel that survives a reconnection (desktop-ipc/ReconnectingChannel.cpp).

    One thread reads and writes, another replaces the channel.  Every section
    under the mutex is one step; a run is any interleaving of the steps of both
    threads.  A channel is a number, 0 is no channel. */
module ReconnectingChannels {

  type Channel = nat

  datatype User = Idle | Using(channel: Channel) | Waiting(channel: Channel)

  datatype State = State(
    isClosed: bool,
    channel: Channel,
    oldChannel: Channel,
    chanWasChanged: bool,
    user: User)

  const INITIAL := State(false, 0, 0, false, Idle)

  datatype Step =
    | Replace(newChannel: Channel)
    | Close
    | Refuse      // getChannel finds the channel closed
    | Enter       // the rest of getChannel
    | Succeed     // the read or write returns
    | Fail        // it throws, or there is no channel
    | Turn        // one turn of waitForReconnect
    | GiveUp      // the time is over, or the channel is closed
    | Destroy

  // ---------- The steps ----------

  function Replaced(s: State, newChannel: Channel): State {
    s.(chanWasChanged := s.chanWasChanged || s.channel != 0, oldChannel := s.channel, channel := newChannel)
  }

  /** An old channel that nobody has cleaned up yet stays the old one. */
  function ReplacedRepaired(s: State, newChannel: Channel): State {
    s.(chanWasChanged := s.chanWasChanged || s.channel != 0,
       oldChannel := if s.oldChannel != 0 then s.oldChannel else s.channel,
       channel := newChannel)
  }

  function Entered(s: State): State {
    s.(oldChannel := 0, chanWasChanged := false, user := if s.chanWasChanged then Idle else Using(s.channel))
  }

  function Turned(s: State): State
    requires s.user.Waiting?
  {
    if s.channel != s.user.channel then s.(chanWasChanged := false, user := Idle) else s
  }

  predicate CanStep(s: State, step: Step) {
    match step
    case Replace(newChannel) => newChannel != 0
    case Close => true
    case Refuse => s.isClosed && s.user.Idle?
    case Enter => s.user.Idle?
    case Succeed => s.user.Using? && s.user.channel != 0
    case Fail => s.user.Using?
    case Turn => s.user.Waiting?
    case GiveUp => s.user.Waiting?
    case Destroy => s.user.Idle?
  }

  /** `repaired` chooses the form of replaceChannel that keeps the old channel. */
  function Next(repaired: bool, s: State, step: Step): State
    requires CanStep(s, step)
  {
    match step
    case Replace(newChannel) => if repaired then ReplacedRepaired(s, newChannel) else Replaced(s, newChannel)
    case Close => s.(isClosed := true)
    case Refuse => s
    case Enter => Entered(s)
    case Succeed => s.(user := Idle)
    case Fail => s.(user := Waiting(s.user.channel))
    case Turn => Turned(s)
    case GiveUp => s.(user := Idle)
    case Destroy => s.(channel := 0, oldChannel := 0)
  }

  /** The step throws a ReconnectException. */
  predicate Throws(s: State, step: Step) {
    || (step.Enter? && s.chanWasChanged)
    || (step.Turn? && s.user.Waiting? && s.user.channel != 0 && s.channel != s.user.channel)
  }

  /** How often `c` is the channel `held`. */
  function One(held: Channel, c: Channel): nat {
    if held == c && c != 0 then 1 else 0
  }

  /** How often the step deletes `c`. */
  function Deletes(s: State, step: Step, c: Channel): nat {
    match step
    case Replace(_) => if s.oldChannel != 0 then One(s.channel, c) else 0
    case Enter => One(s.oldChannel, c)
    case Destroy => One(s.channel, c) + One(s.oldChannel, c)
    case _ => 0
  }

  // ---------- Runs ----------

  /** The states before every step and after the last one. */
  predicate IsRun(repaired: bool, states: seq<State>, steps: seq<Step>) {
    && |states| == |steps| + 1
    && forall i :: 0 <= i < |steps| ==>
       CanStep(states[i], steps[i]) && states[i + 1] == Next(repaired, states[i], steps[i])
  }

  lemma RunPrefix(repaired: bool, states: seq<State>, steps: seq<Step>)
    requires IsRun(repaired, states, steps) && steps != []
    ensures IsRun(repaired, states[..|steps|], steps[..|steps| - 1])
  {
  }

  // ---------- No silent switch ----------

  /** Whoever last worked on `c` works on `c`, unless an exception comes first. */
  predicate BoundTo(s: State, c: Channel) {
    && c != 0 && s.channel != 0 && (s.channel == c || s.chanWasChanged)
    && (s.user.Idle? || s.user.channel == c)
  }

  /** After getChannel a replacement leaves its mark until the user sees it. */
  predicate Marked(s: State) {
    && (!s.user.Idle? && s.user.channel != 0 && s.channel != s.user.channel ==> s.chanWasChanged)
    && (!s.user.Idle? && s.user.channel != 0 ==> s.channel != 0)
    && (s.chanWasChanged ==> s.channel != 0)
  }

  lemma StepKeepsMarked(repaired: bool, s: State, step: Step)
    requires Marked(s) && CanStep(s, step) && !step.Destroy?
    ensures Marked(Next(repaired, s, step))
  {
  }

  lemma StepKeepsBound(repaired: bool, s: State, step: Step, c: Channel)
    requires BoundTo(s, c) && CanStep(s, step) && !step.Destroy? && !Throws(s, step)
    ensures BoundTo(Next(repaired, s, step), c)
  {
  }

  lemma {:induction false} RunKeepsMarked(repaired: bool, states: seq<State>, steps: seq<Step>, i: nat)
    requires IsRun(repaired, states, steps) && Marked(states[0]) && Destroy !in steps && i < |states|
    ensures Marked(states[i])
  {
    if i > 0 {
      RunKeepsMarked(repaired, states, steps, i - 1);
      StepKeepsMarked(repaired, states[i - 1], steps[i - 1]);
    }
  }

  lemma {:induction false} StaysBound(repaired: bool, states: seq<State>, steps: seq<Step>, i: nat, j: nat, c: Channel)
    requires IsRun(repaired, states, steps) && Destroy !in steps && i <= j < |states|
    requires BoundTo(states[i], c) && forall k :: i <= k < j ==> !Throws(states[k], steps[k])
    ensures BoundTo(states[j], c)
  {
    if i < j {
      StaysBound(repaired, states, steps, i, j - 1, c);
      StepKeepsBound(repaired, states[j - 1], steps[j - 1], c);
    }
  }

  /** Two successful operations on different channels always have a
      ReconnectException between them. */
  lemma NoSilentSwitch(repaired: bool, states: seq<State>, steps: seq<Step>, i: nat, j: nat)
    requires IsRun(repaired, states, steps) && states[0] == INITIAL && Destroy !in steps
    requires i < j < |steps| && steps[i] == steps[j] == Succeed
    requires states[i].user.channel != states[j].user.channel
    ensures exists k :: i < k < j && Throws(states[k], steps[k])
  {
    if forall k :: i < k < j ==> !Throws(states[k], steps[k]) {
      RunKeepsMarked(repaired, states, steps, i);
      assert BoundTo(states[i + 1], states[i].user.channel);
      StaysBound(repaired, states, steps, i + 1, j, states[i].user.channel);
    }
  }

  function Reconnects(states: seq<State>, steps: seq<Step>): nat
    requires |states| == |steps| + 1
  {
    if steps == [] then 0
    else
      var n := |steps| - 1;
      Reconnects(states[..n + 1], steps[..n]) + if Throws(states[n], steps[n]) then 1 else 0
  }

  /** Replacements of a channel by another, not counting the first one. */
  function Replacements(states: seq<State>, steps: seq<Step>): nat
    requires |states| == |steps| + 1
  {
    if steps == [] then 0
    else
      var n := |steps| - 1;
      Replacements(states[..n + 1], steps[..n]) + if steps[n].Replace? && states[n].channel != 0 then 1 else 0
  }

  /** Every exception has a replacement of its own; a pending mark has one, too. */
  lemma {:induction false} ReconnectsBounded(repaired: bool, states: seq<State>, steps: seq<Step>)
    requires IsRun(repaired, states, steps) && states[0] == INITIAL && Destroy !in steps
    ensures Reconnects(states, steps) + (if states[|steps|].chanWasChanged then 1 else 0) <= Replacements(states, steps)
  {
    if steps != [] {
      var n := |steps| - 1;
      RunPrefix(repaired, states, steps);
      ReconnectsBounded(repaired, states[..n + 1], steps[..n]);
      RunKeepsMarked(repaired, states, steps, n);
    }
  }

  // ---------- Ownership ----------

  /** How often a run deletes `c`. */
  function Deleted(states: seq<State>, steps: seq<Step>, c: Channel): nat
    requires |states| == |steps| + 1
  {
    if steps == [] then 0
    else
      var n := |steps| - 1;
      Deleted(states[..n + 1], steps[..n], c) + Deletes(states[n], steps[n], c)
  }

  /** How often `c` is passed to replaceChannel. */
  function Given(steps: seq<Step>, c: Channel): nat {
    if steps == [] then 0
    else
      var n := |steps| - 1;
      Given(steps[..n], c) + if steps[n] == Replace(c) then 1 else 0
  }

  function Held(s: State, c: Channel): nat {
    One(s.channel, c) + One(s.oldChannel, c)
  }

  /** Every channel is made for the call that passes it. */
  ghost predicate GivenOnce(steps: seq<Step>) {
    forall c :: Given(steps, c) <= 1
  }

  /** A replacement that comes before the old channel has been cleaned up. */
  predicate Crowds(s: State, step: Step) {
    step.Replace? && s.oldChannel != 0
  }

  lemma StepConserves(repaired: bool, s: State, step: Step, c: Channel)
    requires CanStep(s, step) && (repaired || !Crowds(s, step))
    ensures Deletes(s, step, c) + Held(Next(repaired, s, step), c) == Held(s, c) + if step == Replace(c) then 1 else 0
  {
  }

  /** Nothing is lost and nothing is deleted twice: what was given is either
      still held or has been deleted. */
  lemma {:induction false} RunConserves(repaired: bool, states: seq<State>, steps: seq<Step>, c: Channel)
    requires IsRun(repaired, states, steps) && states[0] == INITIAL
    requires repaired || forall i :: 0 <= i < |steps| ==> !Crowds(states[i], steps[i])
    ensures Deleted(states, steps, c) + Held(states[|steps|], c) == Given(steps, c)
  {
    hide Held, Deletes, Next;
    if steps != [] {
      var n := |steps| - 1;
      RunPrefix(repaired, states, steps);
      RunConserves(repaired, states[..n + 1], steps[..n], c);
      StepConserves(repaired, states[n], steps[n], c);
    } else {
      NothingHeld(c);
    }
  }

  lemma NothingHeld(c: Channel)
    ensures Held(INITIAL, c) == 0
  {
  }

  /** A channel that is not held and not given again is never deleted again. */
  lemma {:induction false} LostForever(states: seq<State>, steps: seq<Step>, i: nat, c: Channel)
    requires IsRun(false, states, steps) && i <= |steps|
    requires Held(states[i], c) == 0 && Given(steps[..i], c) == Given(steps, c)
    ensures Held(states[|steps|], c) == 0 && Deleted(states, steps, c) == Deleted(states[..i + 1], steps[..i], c)
  {
    hide Held, Deletes, Next;
    if i < |steps| {
      var n := |steps| - 1;
      RunPrefix(false, states, steps);
      assert states[..n + 1][..i + 1] == states[..i + 1] && steps[..n][..i] == steps[..i];
      GivenGrows(steps[..n], i, c);
      LostForever(states[..n + 1], steps[..n], i, c);
      NotHeldNotDeleted(states[n], steps[n], c);
    } else {
      assert states[..i + 1] == states && steps[..i] == steps;
    }
  }

  lemma NotHeldNotDeleted(s: State, step: Step, c: Channel)
    requires Held(s, c) == 0 && CanStep(s, step) && step != Replace(c)
    ensures Deletes(s, step, c) == 0 && Held(Next(false, s, step), c) == 0
  {
  }

  lemma {:induction false} GivenGrows(steps: seq<Step>, i: nat, c: Channel)
    requires i <= |steps|
    ensures Given(steps[..i], c) <= Given(steps, c)
  {
    if i < |steps| {
      var n := |steps| - 1;
      GivenGrows(steps[..n], i, c);
      assert steps[..n][..i] == steps[..i];
    } else {
      assert steps[..i] == steps;
    }
  }

  /** The old channel of a crowding replacement is never deleted. */
  lemma CrowdingLeaks(states: seq<State>, steps: seq<Step>, i: nat)
    requires IsRun(false, states, steps) && states[0] == INITIAL && GivenOnce(steps)
    requires i < |steps| && Crowds(states[i], steps[i])
    requires forall k :: 0 <= k < i ==> !Crowds(states[k], steps[k])
    ensures Given(steps, states[i].oldChannel) == 1 && Deleted(states, steps, states[i].oldChannel) == 0
  {
    hide Next;
    var c := states[i].oldChannel;
    assert IsRun(false, states[..i + 1], steps[..i]);
    RunConserves(false, states[..i + 1], steps[..i], c);
    GivenGrows(steps, i, c);
    assert Held(states[i], c) == Given(steps[..i], c) == Given(steps, c) == 1;
    GivenGrows(steps, i + 1, c);
    assert states[..i + 2][..i + 1] == states[..i + 1] && steps[..i + 1][..i] == steps[..i];
    CrowdedOut(states[i], steps[i]);
    LostForever(states, steps, i + 1, c);
  }

  lemma CrowdedOut(s: State, step: Step)
    requires CanStep(s, step) && Crowds(s, step) && Held(s, s.oldChannel) == 1 && step != Replace(s.oldChannel)
    ensures Held(Next(false, s, step), s.oldChannel) == 0 && Deletes(s, step, s.oldChannel) == 0
  {
  }

  lemma {:induction false} OldHasChannel(repaired: bool, states: seq<State>, steps: seq<Step>, n: nat)
    requires IsRun(repaired, states, steps) && states[0] == INITIAL && n < |states|
    ensures states[n].oldChannel != 0 ==> states[n].channel != 0
  {
    if n > 0 {
      OldHasChannel(repaired, states, steps, n - 1);
      assert states[n] == Next(repaired, states[n - 1], steps[n - 1]);
    }
  }

  /** From a crowding replacement on, a channel has been deleted twice, or the old
      one has been deleted already and will be once more. */
  lemma {:induction false} TwiceOrSoon(states: seq<State>, steps: seq<Step>, i: nat, n: nat) returns (c: Channel)
    requires IsRun(false, states, steps) && states[0] == INITIAL
    requires i < n <= |steps| && Crowds(states[i], steps[i])
    ensures c != 0 && Deleted(states[..n + 1], steps[..n], c) >= if states[n].oldChannel == c then 1 else 2
  {
    hide Deleted;
    var s, step := states[n - 1], steps[n - 1];
    assert states[n] == Next(false, s, step);
    OldHasChannel(false, states, steps, n - 1);
    if i < n - 1 {
      c := TwiceOrSoon(states, steps, i, n - 1);
      if step.Replace? && s.oldChannel == c {
        c := s.channel;
      }
    } else {
      c := s.channel;
    }
    DeletedStep(states, steps, n, c);
  }

  /** Every run with a crowding replacement deletes some channel twice in the end. */
  lemma CrowdingDeletesTwice(states: seq<State>, steps: seq<Step>, i: nat) returns (c: Channel)
    requires IsRun(false, states, steps) && states[0] == INITIAL && i < |steps| && Crowds(states[i], steps[i])
    requires steps[|steps| - 1] == Destroy
    ensures Deleted(states, steps, c) >= 2
  {
    c := TwiceOrSoon(states, steps, i, |steps|);
    assert states[..|steps| + 1] == states && steps[..|steps|] == steps;
    assert states[|steps|] == Next(false, states[|steps| - 1], steps[|steps| - 1]);
  }

  lemma {:induction false} FirstCrowding(states: seq<State>, steps: seq<Step>, n: nat) returns (i: nat)
    requires |states| == |steps| + 1 && n < |steps| && Crowds(states[n], steps[n])
    ensures i <= n && Crowds(states[i], steps[i]) && forall k :: 0 <= k < i ==> !Crowds(states[k], steps[k])
  {
    if k :| 0 <= k < n && Crowds(states[k], steps[k]) {
      i := FirstCrowding(states, steps, k);
    } else {
      i := n;
    }
  }

  /** At the end every channel has been deleted exactly once if and only if no
      replacement came before the old channel was cleaned up. */
  lemma OwnershipHoldsIff(states: seq<State>, steps: seq<Step>)
    requires IsRun(false, states, steps) && states[0] == INITIAL && GivenOnce(steps)
    requires steps != [] && steps[|steps| - 1] == Destroy
    ensures (forall c :: Deleted(states, steps, c) == Given(steps, c)) <==>
            forall i :: 0 <= i < |steps| ==> !Crowds(states[i], steps[i])
  {
    hide Next;
    if n: nat :| n < |steps| && Crowds(states[n], steps[n]) {
      var i := FirstCrowding(states, steps, n);
      CrowdingLeaks(states, steps, i);
    } else {
      forall c ensures Deleted(states, steps, c) == Given(steps, c) {
        RunConserves(false, states, steps, c);
        NothingHeldAtTheEnd(false, states, steps, c);
      }
    }
  }

  lemma NothingHeldAtTheEnd(repaired: bool, states: seq<State>, steps: seq<Step>, c: Channel)
    requires IsRun(repaired, states, steps) && steps != [] && steps[|steps| - 1] == Destroy
    ensures Held(states[|steps|], c) == 0
  {
    var n := |steps| - 1;
    assert states[n + 1] == Next(repaired, states[n], steps[n]);
  }

  /** The repaired form deletes every channel exactly once, in every run. */
  lemma RepairedOwnership(states: seq<State>, steps: seq<Step>, c: Channel)
    requires IsRun(true, states, steps) && states[0] == INITIAL
    requires steps != [] && steps[|steps| - 1] == Destroy
    ensures Deleted(states, steps, c) == Given(steps, c)
  {
    hide Next;
    RunConserves(true, states, steps, c);
    NothingHeldAtTheEnd(true, states, steps, c);
  }

  /** Two replacements in a row: the second channel is deleted at once and kept as
      the old one, so the next cleaning deletes it again; the first one leaks. */
  lemma TwoInARow(states: seq<State>, steps: seq<Step>)
    requires IsRun(false, states, steps) && states[0] == INITIAL
    requires steps == [Replace(1), Replace(2), Replace(3), Enter]
    ensures Deleted(states, steps, 2) == 2 && Deleted(states, steps, 1) == 0 && Held(states[4], 1) == 0
  {
    assert states[1] == State(false, 1, 0, false, Idle);
    assert states[2] == State(false, 2, 1, true, Idle);
    assert states[3] == State(false, 3, 2, true, Idle);
    assert states[4] == State(false, 3, 0, false, Idle);
    hide Next;
    forall c ensures Deleted(states, steps, c) ==
      Deletes(states[0], steps[0], c) + Deletes(states[1], steps[1], c) +
      Deletes(states[2], steps[2], c) + Deletes(states[3], steps[3], c)
    {
      hide Deletes;
      DeletedStep(states, steps, 4, c);
      DeletedStep(states, steps, 3, c);
      DeletedStep(states, steps, 2, c);
      DeletedStep(states, steps, 1, c);
      assert states[..5] == states && steps[..4] == steps;
    }
  }

  lemma DeletedStep(states: seq<State>, steps: seq<Step>, n: nat, c: Channel)
    requires |states| == |steps| + 1 && 0 < n <= |steps|
    ensures Deleted(states[..n + 1], steps[..n], c) ==
            Deleted(states[..n], steps[..n - 1], c) + Deletes(states[n - 1], steps[n - 1], c)
  {
    assert states[..n + 1][..n] == states[..n] && steps[..n][..n - 1] == steps[..n - 1];
  }

  // ---------- Not while it is used ----------

  /** The user's channel is the current one only while nothing is old, and it has
      been given. */
  predicate UseIsSafe(s: State, given: bool, current: bool) {
    && (s.user.Using? && s.user.channel == s.channel ==> s.oldChannel == 0)
    && (!s.user.Idle? && s.user.channel != 0 ==> given)
    && (s.channel != 0 ==> current)
  }

  ghost predicate UseIsSafeAt(s: State, steps: seq<Step>) {
    UseIsSafe(s, !s.user.Idle? && Given(steps, s.user.channel) > 0, Given(steps, s.channel) > 0)
  }

  lemma {:induction false} RunKeepsUseSafe(repaired: bool, states: seq<State>, steps: seq<Step>, i: nat)
    requires IsRun(repaired, states, steps) && states[0] == INITIAL && GivenOnce(steps) && i < |states|
    ensures UseIsSafeAt(states[i], steps[..i])
  {
    if i > 0 {
      var s, step := states[i - 1], steps[i - 1];
      RunKeepsUseSafe(repaired, states, steps, i - 1);
      assert steps[..i][..i - 1] == steps[..i - 1];
      assert states[i] == Next(repaired, s, step);
      if step.Replace? {
        GivenGrows(steps, i, step.newChannel);
      }
    }
  }

  /** No channel is deleted while the user reads or writes it, in any run. */
  lemma NeverDeletedInUse(repaired: bool, states: seq<State>, steps: seq<Step>, i: nat)
    requires IsRun(repaired, states, steps) && states[0] == INITIAL && GivenOnce(steps) && i < |steps|
    requires states[i].user.Using?
    ensures Deletes(states[i], steps[i], states[i].user.channel) == 0
  {
    RunKeepsUseSafe(repaired, states, steps, i);
  }

  lemma {:induction false} OnlyGivenIsDeleted(repaired: bool, states: seq<State>, steps: seq<Step>, c: Channel)
    requires IsRun(repaired, states, steps) && states[0] == INITIAL
    ensures Deleted(states, steps, c) > 0 || Held(states[|steps|], c) > 0 ==> Given(steps, c) > 0
  {
    if steps != [] {
      var n := |steps| - 1;
      RunPrefix(repaired, states, steps);
      OnlyGivenIsDeleted(repaired, states[..n + 1], steps[..n], c);
      assert states[n + 1] == Next(repaired, states[n], steps[n]);
    }
  }

  lemma PrefixesGivenOnce(steps: seq<Step>, n: nat)
    requires GivenOnce(steps) && n <= |steps|
    ensures GivenOnce(steps[..n])
  {
    forall c ensures Given(steps[..n], c) <= 1 {
      GivenGrows(steps, n, c);
      assert Given(steps, c) <= 1;
    }
  }

  /** Neither the current channel nor the user's has been deleted. */
  ghost predicate Alive(states: seq<State>, steps: seq<Step>)
    requires |states| == |steps| + 1
  {
    var s := states[|steps|];
    && (s.channel != 0 ==> s.channel != s.oldChannel && Deleted(states, steps, s.channel) == 0)
    && (s.user.Using? && s.user.channel != 0 ==> Deleted(states, steps, s.user.channel) == 0)
  }

  /** In any run, even one that loses channels, the user never works on a
      channel that has been deleted. */
  lemma {:induction false} NeverUsedAfterDeletion(repaired: bool, states: seq<State>, steps: seq<Step>)
    requires IsRun(repaired, states, steps) && states[0] == INITIAL && GivenOnce(steps)
    ensures Alive(states, steps)
  {
    if steps != [] {
      var n := |steps| - 1;
      var s, step := states[n], steps[n];
      RunPrefix(repaired, states, steps);
      PrefixesGivenOnce(steps, n);
      NeverUsedAfterDeletion(repaired, states[..n + 1], steps[..n]);
      RunKeepsUseSafe(repaired, states, steps, n);
      assert states[n + 1] == Next(repaired, s, step);
      if step.Replace? {
        var c := step.newChannel;
        assert Given(steps, c) <= 1;
        OnlyGivenIsDeleted(repaired, states[..n + 1], steps[..n], c);
      }
    }
  }

  // ---------- Not when it is closed ----------

  /** `close` closes both channels that it finds. */
  predicate Closes(s: State, c: Channel) {
    c != 0 && (c == s.channel || c == s.oldChannel)
  }

  /** The last replacement crowded, and nobody has entered since. */
  predicate CrowdedLast(states: seq<State>, steps: seq<Step>, n: nat)
    requires |states| == |steps| + 1 && n <= |steps|
  {
    && n > 0
    && match steps[n - 1]
       case Replace(_) => Crowds(states[n - 1], steps[n - 1])
       case Enter => false
       case Destroy => false
       case _ => CrowdedLast(states, steps, n - 1)
  }

  /** The old channel has been deleted already exactly after such a replacement. */
  lemma {:induction false} OldIsDeletedIff(states: seq<State>, steps: seq<Step>, n: nat)
    requires IsRun(false, states, steps) && states[0] == INITIAL && GivenOnce(steps) && n <= |steps|
    ensures var c := states[n].oldChannel;
            CrowdedLast(states, steps, n) <==> c != 0 && Deleted(states[..n + 1], steps[..n], c) > 0
  {
    hide Deleted, GivenOnce;
    if n > 0 {
      OldIsDeletedIff(states, steps, n - 1);
      OldHasChannel(false, states, steps, n - 1);
      CurrentIsAlive(states, steps, n - 1);
      DeletedStep(states, steps, n, states[n].oldChannel);
      assert states[n] == Next(false, states[n - 1], steps[n - 1]);
    }
  }

  lemma CurrentIsAlive(states: seq<State>, steps: seq<Step>, n: nat)
    requires IsRun(false, states, steps) && states[0] == INITIAL && GivenOnce(steps) && n <= |steps|
    ensures states[n].channel != 0 ==> Deleted(states[..n + 1], steps[..n], states[n].channel) == 0
  {
    hide Deleted, Next, Given;
    PrefixesGivenOnce(steps, n);
    NeverUsedAfterDeletion(false, states[..n + 1], steps[..n]);
  }

  /** `close` works on a channel that has been deleted if and only if the last
      replacement crowded and nobody has entered since. */
  lemma CloseIsSafeIff(states: seq<State>, steps: seq<Step>, n: nat)
    requires IsRun(false, states, steps) && states[0] == INITIAL && GivenOnce(steps)
    requires n < |steps| && steps[n] == Close
    ensures (forall c :: Closes(states[n], c) ==> Deleted(states[..n + 1], steps[..n], c) == 0) <==>
            !CrowdedLast(states, steps, n)
  {
    hide Deleted, CrowdedLast, Next;
    OldIsDeletedIff(states, steps, n);
    CurrentIsAlive(states, steps, n);
    assert states[n].oldChannel != 0 ==> Closes(states[n], states[n].oldChannel);
  }

  /** The repaired form only ever closes channels that are still there. */
  lemma RepairedCloseIsSafe(states: seq<State>, steps: seq<Step>, n: nat, c: Channel)
    requires IsRun(true, states, steps) && states[0] == INITIAL && GivenOnce(steps)
    requires n < |steps| && steps[n] == Close && Closes(states[n], c)
    ensures Deleted(states[..n + 1], steps[..n], c) == 0
  {
    hide Deleted, Next, Given;
    assert IsRun(true, states[..n + 1], steps[..n]);
    PrefixesGivenOnce(steps, n);
    assert Given(steps[..n], c) <= 1;
    RunConserves(true, states[..n + 1], steps[..n], c);
  }

  // ---------- The class ----------

  datatype Outcome =
    | Done(channel: Channel)
    | Reconnected    // ReconnectException
    | Again          // nothing read or written, to be called again
    | Failed         // IOException

  /** What the other thread can do at an unlocked moment. */
  datatype Act = Arrive(channel: Channel) | Shut

  function StepOf(a: Act): Step {
    match a
    case Arrive(c) => Replace(c)
    case Shut => Close
  }

  predicate Sane(moments: seq<seq<Act>>) {
    forall i :: 0 <= i < |moments| ==> Arrive(0) !in moments[i]
  }

  function Moment(moments: seq<seq<Act>>, i: nat): (acts: seq<Act>)
    ensures Sane(moments) ==> Arrive(0) !in acts
  {
    if i < |moments| then moments[i] else []
  }

  function Acted(s: State, acts: seq<Act>): (t: State)
    requires Arrive(0) !in acts
    ensures t.user == s.user
  {
    if acts == [] then s else Next(false, Acted(s, acts[..|acts| - 1]), StepOf(acts[|acts| - 1]))
  }

  /** `waitForReconnect` from the i-th unlocked moment on. */
  function Waited(s: State, moments: seq<seq<Act>>, i: nat): (r: (Outcome, State))
    requires s.user.Waiting? && Sane(moments)
    ensures r.1.user.Idle?
    decreases |moments| - i
  {
    if i >= |moments| || s.isClosed then (Failed, s.(user := Idle))
    else
      var t := Turned(Acted(s, moments[i]));
      if t.user.Waiting? then Waited(t, moments, i + 1)
      else (if s.user.channel != 0 then Reconnected else Again, t)
  }

  /** A read or write. */
  function Operated(s: State, works: bool, moments: seq<seq<Act>>): (r: (Outcome, State))
    requires s.user.Idle? && Sane(moments)
    ensures r.1.user.Idle?
  {
    if s.isClosed then (Failed, s)
    else
      var t := Entered(Acted(s, Moment(moments, 0)));
      if t.user.Idle? then (Reconnected, t)
      else
        var u := Acted(t, Moment(moments, 1));
        var c := u.user.channel;
        if c != 0 && works then (Done(c), u.(user := Idle)) else Waited(u.(user := Waiting(c)), moments, 2)
  }

  // ---------- What an operation comes to, from the acts alone ----------

  /** The channel after the acts: the one that was passed last. */
  function Current(c: Channel, acts: seq<Act>): Channel {
    if acts == [] then c
    else if acts[|acts| - 1].Arrive? then acts[|acts| - 1].channel
    else Current(c, acts[..|acts| - 1])
  }

  lemma {:induction false} CurrentIs(c: Channel, acts: seq<Act>)
    ensures (forall i :: 0 <= i < |acts| ==> acts[i] == Shut) ==> Current(c, acts) == c
    ensures forall i :: 0 <= i < |acts| && acts[i].Arrive? && (forall j :: i < j < |acts| ==> acts[j] == Shut) ==>
              Current(c, acts) == acts[i].channel
  {
    if acts != [] && acts[|acts| - 1] == Shut {
      CurrentIs(c, acts[..|acts| - 1]);
    }
  }

  /** A channel took the place of another one. */
  predicate Replaces(c: Channel, acts: seq<Act>) {
    exists i :: 0 <= i < |acts| && acts[i].Arrive? && (c != 0 || exists j :: 0 <= j < i && acts[j].Arrive?)
  }

  lemma {:induction false} ActedIs(s: State, acts: seq<Act>)
    requires Arrive(0) !in acts
    ensures var t := Acted(s, acts);
            && t.user == s.user && t.channel == Current(s.channel, acts)
            && (t.isClosed <==> s.isClosed || Shut in acts)
            && (t.chanWasChanged <==> s.chanWasChanged || Replaces(s.channel, acts))
  {
    hide Next, Replaces;
    if acts != [] {
      var n := |acts| - 1;
      ActedIs(s, acts[..n]);
      LastAct(Acted(s, acts[..n]), acts[n]);
      ReplacesMore(s.channel, acts[..n], acts[n]);
      assert acts[..n] + [acts[n]] == acts;
    } else {
      NothingReplaced(s.channel);
    }
  }

  lemma NothingReplaced(c: Channel)
    ensures !Replaces(c, [])
  {
  }

  lemma LastAct(s: State, a: Act)
    requires a != Arrive(0)
    ensures var t := Next(false, s, StepOf(a));
            && t.user == s.user && t.channel == (if a.Arrive? then a.channel else s.channel)
            && (t.isClosed <==> s.isClosed || a == Shut)
            && (t.chanWasChanged <==> s.chanWasChanged || (a.Arrive? && s.channel != 0))
  {
  }

  lemma ReplacesMore(c: Channel, acts: seq<Act>, a: Act)
    requires Arrive(0) !in acts + [a]
    ensures Replaces(c, acts + [a]) <==> Replaces(c, acts) || (a.Arrive? && Current(c, acts) != 0)
  {
    var more := acts + [a];
    CurrentIsThere(c, acts);
    if Replaces(c, acts) {
      var i :| 0 <= i < |acts| && acts[i].Arrive? && (c != 0 || exists j :: 0 <= j < i && acts[j].Arrive?);
      assert more[i] == acts[i] && forall j :: 0 <= j < i ==> more[j] == acts[j];
    }
    if a.Arrive? && Current(c, acts) != 0 {
      assert more[|acts|].Arrive?;
      if c == 0 {
        var j :| 0 <= j < |acts| && acts[j].Arrive?;
        assert more[j].Arrive?;
      }
    }
  }

  lemma {:induction false} CurrentIsThere(c: Channel, acts: seq<Act>)
    requires Arrive(0) !in acts
    ensures Current(c, acts) != 0 <==> c != 0 || exists j :: 0 <= j < |acts| && acts[j].Arrive?
  {
    if acts != [] {
      CurrentIsThere(c, acts[..|acts| - 1]);
    }
  }

  /** The acts from the i-th unlocked moment up to the k-th. */
  function Joined(moments: seq<seq<Act>>, i: nat, k: nat): (acts: seq<Act>)
    ensures Sane(moments) ==> Arrive(0) !in acts
    decreases k - i
  {
    if i >= k then [] else Moment(moments, i) + Joined(moments, i + 1, k)
  }

  lemma JoinedFirst(moments: seq<seq<Act>>, i: nat, k: nat)
    ensures Joined(moments, i, i) == [] && Joined(moments, i, i + 1) == Moment(moments, i)
    ensures i < k ==> Joined(moments, i, k) == Moment(moments, i) + Joined(moments, i + 1, k)
  {
    assert Joined(moments, i, i + 1) == Moment(moments, i) + Joined(moments, i + 1, i + 1);
    assert Moment(moments, i) + [] == Moment(moments, i);
  }

  lemma {:induction false} CurrentJoined(c: Channel, a: seq<Act>, b: seq<Act>)
    ensures Current(c, a + b) == Current(Current(c, a), b)
  {
    if b == [] {
      assert a + b == a;
    } else {
      assert (a + b)[..|a + b| - 1] == a + b[..|b| - 1];
      CurrentJoined(c, a, b[..|b| - 1]);
    }
  }

  /** At the k-th moment the current channel is another one than the user's. */
  predicate IsAnother(s: State, moments: seq<seq<Act>>, i: nat, k: nat)
    requires s.user.Waiting?
  {
    Current(s.channel, Joined(moments, i, k + 1)) != s.user.channel
  }

  lemma LaterMoment(s: State, moments: seq<seq<Act>>, i: nat, k: nat)
    requires s.user.Waiting? && Sane(moments) && i < k
    ensures var t := Acted(s, Moment(moments, i));
            t.user == s.user && (IsAnother(s, moments, i, k) <==> IsAnother(t, moments, i + 1, k))
  {
    hide Joined, Acted, Current;
    ActedIs(s, Moment(moments, i));
    JoinedFirst(moments, i, k + 1);
    CurrentJoined(s.channel, Moment(moments, i), Joined(moments, i + 1, k + 1));
  }

  /** A wait ends at the first moment at which the current channel is another one:
      with a ReconnectException if there was a channel, and otherwise to be called
      again. */
  lemma {:induction false} WaitEndsAt(s: State, moments: seq<seq<Act>>, i: nat, k: nat)
    requires s.user.Waiting? && Sane(moments) && i <= k < |moments|
    requires IsAnother(s, moments, i, k) && forall m :: i <= m < k ==> !IsAnother(s, moments, i, m)
    requires !s.isClosed && Shut !in Joined(moments, i, k)
    ensures Waited(s, moments, i).0 == if s.user.channel != 0 then Reconnected else Again
    ensures Waited(s, moments, i).1 == Acted(s, Joined(moments, i, k + 1)).(chanWasChanged := false, user := Idle)
    decreases k - i
  {
    hide Joined, Acted, Current, Moment;
    var acts, n := Moment(moments, i), i + 1;
    ActedIs(s, acts);
    JoinedFirst(moments, i, k);
    JoinedFirst(moments, i, k + 1);
    ActedJoined(s, acts, Joined(moments, n, k + 1));
    MomentIs(moments, i);
    if i < k {
      assert !IsAnother(s, moments, i, i);
      forall m | n <= m <= k ensures IsAnother(s, moments, i, m) <==> IsAnother(Acted(s, acts), moments, n, m) {
        LaterMoment(s, moments, i, m);
      }
      WaitEndsAt(Acted(s, acts), moments, n, k);
    } else {
      JoinedFirst(moments, n, k);
    }
  }

  lemma MomentIs(moments: seq<seq<Act>>, i: nat)
    requires i < |moments|
    ensures Moment(moments, i) == moments[i]
  {
  }

  lemma {:induction false} ActedJoined(s: State, a: seq<Act>, b: seq<Act>)
    requires Arrive(0) !in a && Arrive(0) !in b
    ensures Acted(s, a + b) == Acted(Acted(s, a), b)
  {
    if b == [] {
      assert a + b == a;
    } else {
      assert (a + b)[..|a + b| - 1] == a + b[..|b| - 1];
      ActedJoined(s, a, b[..|b| - 1]);
    }
  }

  /** It fails if and only if no such moment comes before the channel is closed or
      the time is over. */
  lemma WaitFailsIff(s: State, moments: seq<seq<Act>>, i: nat)
    requires s.user.Waiting? && Sane(moments)
    ensures Waited(s, moments, i).0 == Failed <==>
            !exists k :: i <= k < |moments| && IsAnother(s, moments, i, k) &&
                         !s.isClosed && Shut !in Joined(moments, i, k)
    decreases |moments| - i
  {
    if k :| i <= k < |moments| && IsAnother(s, moments, i, k) && !s.isClosed && Shut !in Joined(moments, i, k) {
      var first := FirstAnother(s, moments, i, k);
      WaitEndsAt(s, moments, i, first);
    } else if i < |moments| && !s.isClosed {
      NoneNoticed(s, moments, i);
    }
  }

  lemma {:induction false} FirstAnother(s: State, moments: seq<seq<Act>>, i: nat, k: nat) returns (first: nat)
    requires s.user.Waiting? && i <= k && IsAnother(s, moments, i, k) && Shut !in Joined(moments, i, k)
    ensures i <= first <= k && IsAnother(s, moments, i, first) && Shut !in Joined(moments, i, first)
    ensures forall m :: i <= m < first ==> !IsAnother(s, moments, i, m)
  {
    if m :| i <= m < k && IsAnother(s, moments, i, m) {
      JoinedFurther(moments, i, m, k);
      first := FirstAnother(s, moments, i, m);
    } else {
      first := k;
    }
  }

  lemma {:induction false} JoinedFurther(moments: seq<seq<Act>>, i: nat, m: nat, k: nat)
    requires i <= m <= k
    ensures Joined(moments, i, k) == Joined(moments, i, m) + Joined(moments, m, k)
    decreases m - i
  {
    if i < m {
      JoinedFurther(moments, i + 1, m, k);
    }
  }

  lemma {:induction false} NoneNoticed(s: State, moments: seq<seq<Act>>, i: nat)
    requires s.user.Waiting? && Sane(moments)
    requires !exists k :: i <= k < |moments| && IsAnother(s, moments, i, k) &&
                          !s.isClosed && Shut !in Joined(moments, i, k)
    ensures Waited(s, moments, i).0 == Failed
    decreases |moments| - i
  {
    if i < |moments| && !s.isClosed {
      hide Joined, Acted, Current, Moment;
      var acts, n := Moment(moments, i), i + 1;
      ActedIs(s, acts);
      MomentIs(moments, i);
      JoinedFirst(moments, i, i);
      assert !IsAnother(s, moments, i, i);
      var t := Acted(s, acts);
      forall k | n <= k < |moments| && IsAnother(t, moments, n, k) &&
             !t.isClosed ensures Shut in Joined(moments, n, k) {
        LaterMoment(s, moments, i, k);
        JoinedFirst(moments, i, k);
      }
      NoneNoticed(t, moments, n);
    }
  }

  /** An operation, from the acts alone.  On a closed channel it fails.  A channel
      that was replaced since the last time, or before the operation starts, gives
      a ReconnectException.  Otherwise it is done on the channel that is there, or
      it waits until another one is: with a ReconnectException if there was one,
      to be called again if there was none, and with a failure exactly if no other
      one comes before the channel is closed or the time is over. */
  lemma OutcomeIs(s: State, works: bool, moments: seq<seq<Act>>)
    requires s.user.Idle? && Sane(moments)
    ensures var r, c := Operated(s, works, moments).0, Current(s.channel, Moment(moments, 0));
            if s.isClosed then r == Failed
            else if s.chanWasChanged || Replaces(s.channel, Moment(moments, 0)) then r == Reconnected
            else if c != 0 && works then r == Done(c)
            else
              && (r == Failed || r == if c != 0 then Reconnected else Again)
              && (r == Failed <==>
                    !exists k :: 2 <= k < |moments| && Current(c, Joined(moments, 1, k + 1)) != c &&
                                 Shut !in Joined(moments, 0, k))
  {
    if !s.isClosed {
      var a0, a1 := Moment(moments, 0), Moment(moments, 1);
      ActedIs(s, a0);
      var t := Entered(Acted(s, a0));
      if !t.user.Idle? {
        ActedIs(t, a1);
        var u := Acted(t, a1);
        var c := u.user.channel;
        if !(c != 0 && works) {
          WaitOutcome(s, t, moments, c);
        }
      }
    }
  }

  lemma WaitOutcome(s: State, t: State, moments: seq<seq<Act>>, c: Channel)
    requires Sane(moments) && t.user == Using(c) && t.channel == c && !s.isClosed
    requires t.isClosed <==> Shut in Moment(moments, 0)
    ensures var r := Waited(Acted(t, Moment(moments, 1)).(user := Waiting(c)), moments, 2).0;
            && (r == Failed || r == if c != 0 then Reconnected else Again)
            && (r == Failed <==>
                  !exists k :: 2 <= k < |moments| && Current(c, Joined(moments, 1, k + 1)) != c &&
                               Shut !in Joined(moments, 0, k))
  {
    hide Waited, Joined, Acted, Current, Moment, IsAnother;
    var w := Acted(t, Moment(moments, 1)).(user := Waiting(c));
    ActedIs(t, Moment(moments, 1));
    WaitFailsIff(w, moments, 2);
    WaitKind(w, moments, 2);
    if k :| 2 <= k < |moments| && IsAnother(w, moments, 2, k) && !w.isClosed && Shut !in Joined(moments, 2, k) {
      WaitMoment(t, moments, c, k);
    }
    if k :| 2 <= k < |moments| && Current(c, Joined(moments, 1, k + 1)) != c && Shut !in Joined(moments, 0, k) {
      WaitMoment(t, moments, c, k);
    }
  }

  lemma WaitMoment(t: State, moments: seq<seq<Act>>, c: Channel, k: nat)
    requires Sane(moments) && t.channel == c && 2 <= k && (t.isClosed <==> Shut in Moment(moments, 0))
    ensures var w := Acted(t, Moment(moments, 1)).(user := Waiting(c));
            && (IsAnother(w, moments, 2, k) <==> Current(c, Joined(moments, 1, k + 1)) != c)
            && (w.isClosed || Shut in Joined(moments, 2, k) <==> Shut in Joined(moments, 0, k))
  {
    hide Joined, Acted, Current, Moment;
    ActedIs(t, Moment(moments, 1));
    JoinedFirst(moments, 1, k + 1);
    CurrentJoined(c, Moment(moments, 1), Joined(moments, 2, k + 1));
    JoinedFirst(moments, 0, k);
    JoinedFirst(moments, 1, k);
  }

  lemma {:induction false} WaitKind(s: State, moments: seq<seq<Act>>, i: nat)
    requires s.user.Waiting? && Sane(moments)
    ensures var r := Waited(s, moments, i).0; r == Failed || r == if s.user.channel != 0 then Reconnected else Again
    decreases |moments| - i
  {
    if i < |moments| && !s.isClosed {
      var t := Turned(Acted(s, moments[i]));
      if t.user.Waiting? {
        WaitKind(t, moments, i + 1);
      }
    }
  }

  /** Operations one after the other, with their outcomes. */
  function OperatedAll(s: State, works: seq<bool>, moments: seq<seq<seq<Act>>>): (r: (seq<Outcome>, State))
    requires s.user.Idle? && |works| == |moments| && forall k :: 0 <= k < |moments| ==> Sane(moments[k])
    ensures |r.0| == |works| && r.1.user.Idle?
  {
    if works == [] then ([], s)
    else
      var n := |works| - 1;
      var earlier := OperatedAll(s, works[..n], moments[..n]);
      var last := Operated(earlier.1, works[n], moments[n]);
      (earlier.0 + [last.0], last.1)
  }

  /** Left alone, an open channel that works fails once at most, and only to
      tell of a reconnection. */
  lemma SettlesAtOnce(s: State)
    requires s.user.Idle? && !s.isClosed && s.channel != 0
    ensures OperatedAll(s, [true, true], [[], []]).0 ==
            [if s.chanWasChanged then Reconnected else Done(s.channel), Done(s.channel)]
  {
    hide Operated, OperatedAll;
    OperatesAlone(s);
    var first := Operated(s, true, []).1;
    OperatesAlone(first);
    NoOperation(s);
    OneMore(s, [], [], true, []);
    OneMore(s, [true], [[]], true, []);
    assert [true, true] == [true] + [true] && [true] == [] + [true];
    var none: seq<seq<seq<Act>>>, empty: seq<seq<Act>> := [], [];
    assert [empty, empty] == [empty] + [empty] && [empty] == none + [empty];
  }

  lemma NoOperation(s: State)
    requires s.user.Idle?
    ensures OperatedAll(s, [], []) == ([], s)
  {
  }

  lemma OneMore(s: State, works: seq<bool>, moments: seq<seq<seq<Act>>>, w: bool, m: seq<seq<Act>>)
    requires s.user.Idle? && |works| == |moments| && (forall k :: 0 <= k < |moments| ==> Sane(moments[k])) && Sane(m)
    ensures var earlier := OperatedAll(s, works, moments);
            var last := Operated(earlier.1, w, m);
            OperatedAll(s, works + [w], moments + [m]) == (earlier.0 + [last.0], last.1)
  {
    hide Operated, Sane;
    assert (works + [w])[..|works|] == works && (moments + [m])[..|works|] == moments;
  }

  lemma OperatesAlone(s: State)
    requires s.user.Idle? && !s.isClosed && s.channel != 0
    ensures Operated(s, true, []) ==
            (if s.chanWasChanged then Reconnected else Done(s.channel), s.(oldChannel := 0, chanWasChanged := false))
  {
  }

  /** A run from one state to another, as a trace of what happened. */
  datatype Trace = Trace(states: seq<State>, steps: seq<Step>) {
    ghost predicate Leads(from: State, to: State) {
      IsRun(false, states, steps) && states[0] == from && states[|steps|] == to && Destroy !in steps
    }

    function Then(step: Step): Trace
      requires |states| == |steps| + 1 && CanStep(states[|steps|], step)
    {
      Trace(states + [Next(false, states[|steps|], step)], steps + [step])
    }

    /** Nothing has come of it yet. */
    ghost predicate Pending(from: State, to: State) {
      Leads(from, to) && Succeed !in steps && forall i :: 0 <= i < |steps| ==> !Throws(states[i], steps[i])
    }

    /** The last step throws, and no other. */
    ghost predicate ThrowsAtTheEnd()
      requires |states| == |steps| + 1
    {
      && steps != [] && Throws(states[|steps| - 1], steps[|steps| - 1]) && Succeed !in steps
      && forall i :: 0 <= i < |steps| - 1 ==> !Throws(states[i], steps[i])
    }

    /** The last step succeeds on `c`, and no other, and nothing is thrown. */
    ghost predicate SucceedsAtTheEnd(c: Channel)
      requires |states| == |steps| + 1
    {
      && steps != [] && steps[|steps| - 1] == Succeed && states[|steps| - 1].user == Using(c)
      && Succeed !in steps[..|steps| - 1]
      && forall i :: 0 <= i < |steps| ==> !Throws(states[i], steps[i])
    }
  }

  lemma StepAppended(t: Trace, from: State, to: State, step: Step, i: nat)
    requires t.Pending(from, to) && CanStep(to, step) && i <= |t.steps|
    ensures var t' := t.Then(step);
            && |t'.states| == |t.steps| + 2 && |t'.steps| == |t.steps| + 1
            && t'.steps[i] == (if i < |t.steps| then t.steps[i] else step)
            && t'.states[i] == t.states[i] && CanStep(t'.states[i], t'.steps[i])
            && t'.states[i + 1] == Next(false, t'.states[i], t'.steps[i])
            && (i < |t.steps| ==> !Throws(t'.states[i], t'.steps[i]))
  {
    hide Next;
  }

  /** One step more. */
  lemma TraceExtended(t: Trace, from: State, to: State, step: Step)
    requires t.Pending(from, to) && CanStep(to, step) && !step.Destroy?
    ensures t.Then(step).Leads(from, Next(false, to, step))
    ensures Throws(to, step) ==> t.Then(step).ThrowsAtTheEnd()
    ensures !Throws(to, step) && !step.Succeed? ==> t.Then(step).Pending(from, Next(false, to, step))
    ensures step.Succeed? ==> t.Then(step).SucceedsAtTheEnd(to.user.channel)
  {
    hide Next, Throws, CanStep, Trace.Then;
    var t', n := t.Then(step), |t.steps|;
    ThenParts(t, step);
    forall i | 0 <= i <= n
      ensures CanStep(t'.states[i], t'.steps[i]) && t'.states[i + 1] == Next(false, t'.states[i], t'.steps[i])
      ensures i < n ==> !Throws(t'.states[i], t'.steps[i])
    {
      StepAppended(t, from, to, step, i);
    }
    StepAppended(t, from, to, step, n);
    if step.Succeed? {
      SucceedIsQuiet(to);
    }
  }

  lemma SucceedIsQuiet(s: State)
    requires CanStep(s, Succeed)
    ensures !Throws(s, Succeed) && s.user == Using(s.user.channel)
  {
  }

  lemma ThenParts(t: Trace, step: Step)
    requires |t.states| == |t.steps| + 1 && CanStep(t.states[|t.steps|], step)
    ensures var t' := t.Then(step);
            && t'.steps == t.steps + [step] && t'.steps[..|t.steps|] == t.steps
            && |t'.states| == |t'.steps| + 1 && t'.states[0] == t.states[0]
  {
    hide Next;
  }

  lemma TraceStarted(s: State)
    ensures Trace([s], []).Pending(s, s)
  {
  }

  lemma PendingEnds(t: Trace, from: State, to: State)
    requires t.Pending(from, to)
    ensures t.Leads(from, to) && |t.states| == |t.steps| + 1 && t.states[|t.steps|] == to
  {
  }

  /** The user was told of a reconnection between two of its operations. */
  predicate ToldBetween(log: seq<Outcome>, i: nat, j: nat) {
    exists k :: i < k < j && k < |log| && log[k] == Reconnected
  }

  lemma ToldStays(log: seq<Outcome>, r: Outcome, i: nat, j: nat, j': nat)
    requires j <= j' && j <= |log| && i < |log|
    requires ToldBetween(log, i, j) || (r == Reconnected && |log| < j')
    ensures ToldBetween(log + [r], i, j')
  {
    if ToldBetween(log, i, j) {
      var k :| i < k < j && k < |log| && log[k] == Reconnected;
      assert (log + [r])[k] == Reconnected;
    } else {
      assert (log + [r])[|log|] == Reconnected;
    }
  }

  class ReconnectingChannel {
    var isClosed: bool
    var channel: Channel
    var oldChannel: Channel
    var chanWasChanged: bool

    /** The shared fields together with what the user's thread is doing. */
    ghost function StateWith(user: User): State
      reads this
    {
      State(isClosed, channel, oldChannel, chanWasChanged, user)
    }

    constructor ()
      ensures StateWith(Idle) == INITIAL
    {
      isClosed, channel, oldChannel, chanWasChanged := false, 0, 0, false;
    }

    method CloseChannel(ghost user: User)
      modifies this
      ensures StateWith(user) == Next(false, old(StateWith(user)), Close)
    {
      isClosed := true;
    }

    method ReplaceChannel(newChannel: Channel, ghost user: User)
      requires newChannel != 0
      modifies this
      ensures StateWith(user) == Next(false, old(StateWith(user)), Replace(newChannel))
    {
      if channel != 0 {
        chanWasChanged := true;
      }
      oldChannel := channel;
      channel := newChannel;
    }

    /** Null when the exception is thrown. */
    method GetChannel() returns (thrown: bool, c: Channel)
      modifies this
      ensures thrown == old(chanWasChanged) && (!thrown ==> c == channel)
      ensures StateWith(if thrown then Idle else Using(c)) == Next(false, old(StateWith(Idle)), Enter)
    {
      if oldChannel != 0 {
        oldChannel := 0;
      }
      thrown, c := false, 0;
      if chanWasChanged {
        chanWasChanged := false;
        thrown := true;
      } else {
        c := channel;
      }
    }

    /** The locked section of waitForReconnect. */
    method CatchReconnection(c: Channel) returns (success: bool)
      modifies this
      ensures success <==> old(channel) != c
      ensures StateWith(if success then Idle else Waiting(c)) == Next(false, old(StateWith(Waiting(c))), Turn)
    {
      success := channel != c;
      if success {
        chanWasChanged := false;
      }
    }

    /** The other thread acts, any number of times. */
    method Interfere(acts: seq<Act>, ghost user: User, ghost from: State, ghost t: Trace) returns (ghost t': Trace)
      requires Arrive(0) !in acts && t.Pending(from, StateWith(user))
      modifies this
      ensures StateWith(user) == Acted(old(StateWith(user)), acts) && t'.Pending(from, StateWith(user))
    {
      hide Trace.Leads, Trace.Pending, IsRun, Next;
      t' := t;
      for i := 0 to |acts|
        invariant StateWith(user) == Acted(old(StateWith(user)), acts[..i]) && t'.Pending(from, StateWith(user))
      {
        assert acts[..i + 1][..i] == acts[..i];
        ActsArePossible(StateWith(user), acts[i]);
        PendingEnds(t', from, StateWith(user));
        TraceExtended(t', from, StateWith(user), StepOf(acts[i]));
        t' := t'.Then(StepOf(acts[i]));
        match acts[i]
        case Arrive(c) => ReplaceChannel(c, user);
        case Shut => CloseChannel(user);
      }
      assert acts[..|acts|] == acts;
    }

    /** `read` and `write`: `works` says whether the channel does its part, and
        `moments[i]` is what the other thread does at the i-th unlocked moment: on
        the way to the lock, during the operation, and while waiting.  The time is
        over when there are no more moments. */
    method Operate(works: bool, moments: seq<seq<Act>>) returns (r: Outcome, ghost t: Trace)
      requires Sane(moments)
      modifies this
      ensures (r, StateWith(Idle)) == Operated(old(StateWith(Idle)), works, moments)
      ensures t.Leads(old(StateWith(Idle)), StateWith(Idle))
      ensures match r
              case Done(c) => t.SucceedsAtTheEnd(c)
              case Reconnected => t.ThrowsAtTheEnd()
              case _ => t.Pending(old(StateWith(Idle)), StateWith(Idle))
    {
      hide Trace.Leads, Trace.Pending, Trace.ThrowsAtTheEnd, Trace.SucceedsAtTheEnd, IsRun, Acted;
      ghost var start := StateWith(Idle);
      t := Trace([start], []);
      TraceStarted(start);
      if isClosed {
        TraceExtended(t, start, start, Refuse);
        t := t.Then(Refuse);
        PendingEnds(t, start, start);
        return Failed, t;
      }
      t := Interfere(if |moments| > 0 then moments[0] else [], Idle, start, t);
      PendingEnds(t, start, StateWith(Idle));
      TraceExtended(t, start, StateWith(Idle), Enter);
      var thrown, c := GetChannel();
      t := t.Then(Enter);
      if thrown {
        return Reconnected, t;
      }
      t := Interfere(if |moments| > 1 then moments[1] else [], Using(c), start, t);
      PendingEnds(t, start, StateWith(Using(c)));
      if c != 0 && works {
        TraceExtended(t, start, StateWith(Using(c)), Succeed);
        t := t.Then(Succeed);
        return Done(c), t;
      }
      TraceExtended(t, start, StateWith(Using(c)), Fail);
      t := t.Then(Fail);
      r, t := WaitForReconnect(c, moments, start, t);
    }

    method WaitForReconnect(c: Channel, moments: seq<seq<Act>>, ghost start: State, ghost t: Trace)
      returns (r: Outcome, ghost t': Trace)
      requires Sane(moments) && t.Pending(start, StateWith(Waiting(c)))
      modifies this
      ensures (r, StateWith(Idle)) == Waited(old(StateWith(Waiting(c))), moments, 2) && !r.Done?
      ensures t'.Leads(start, StateWith(Idle))
      ensures if r == Reconnected then t'.ThrowsAtTheEnd() else t'.Pending(start, StateWith(Idle))
    {
      hide Trace.Leads, Trace.Pending, Trace.ThrowsAtTheEnd, IsRun, Acted;
      t' := t;
      var i := 2;
      while i < |moments| && !isClosed
        invariant t'.Pending(start, StateWith(Waiting(c)))
        invariant Waited(StateWith(Waiting(c)), moments, i) == Waited(old(StateWith(Waiting(c))), moments, 2)
      {
        t' := Interfere(moments[i], Waiting(c), start, t');
        PendingEnds(t', start, StateWith(Waiting(c)));
        TraceExtended(t', start, StateWith(Waiting(c)), Turn);
        var success := CatchReconnection(c);
        t' := t'.Then(Turn);
        if success {
          r := if c != 0 then Reconnected else Again;
          if r == Again {
            PendingEnds(t', start, StateWith(Idle));
          }
          return;
        }
        i := i + 1;
      }
      PendingEnds(t', start, StateWith(Waiting(c)));
      TraceExtended(t', start, StateWith(Waiting(c)), GiveUp);
      t' := t'.Then(GiveUp);
      PendingEnds(t', start, StateWith(Idle));
      r := Failed;
    }

    /** The user's thread calls again and again, whatever it gets. */
    method Session(works: seq<bool>, moments: seq<seq<seq<Act>>>) returns (log: seq<Outcome>)
      requires |moments| == |works| && Marked(StateWith(Idle)) && forall k :: 0 <= k < |moments| ==> Sane(moments[k])
      modifies this
      ensures (log, StateWith(Idle)) == OperatedAll(old(StateWith(Idle)), works, moments)
      ensures forall i, j :: 0 <= i < j < |log| && log[i].Done? && log[j].Done? && log[i].channel != log[j].channel ==>
                ToldBetween(log, i, j)
    {
      hide Trace.Leads, Trace.Pending, Trace.ThrowsAtTheEnd, Trace.SucceedsAtTheEnd, IsRun, BoundTo, Operated, Sane;
      log := [];
      for n := 0 to |works|
        invariant |log| == n && Marked(StateWith(Idle))
        invariant (log, StateWith(Idle)) == OperatedAll(old(StateWith(Idle)), works[..n], moments[..n])
        invariant forall i :: 0 <= i < n && log[i].Done? && !ToldBetween(log, i, n) ==>
                    BoundTo(StateWith(Idle), log[i].channel)
        invariant forall i, j :: 0 <= i < j < n && log[i].Done? && log[j].Done? && log[i].channel != log[j].channel ==>
                    ToldBetween(log, i, j)
      {
        ghost var before := StateWith(Idle);
        var r;
        ghost var t;
        assert works[..n + 1][..n] == works[..n] && moments[..n + 1][..n] == moments[..n];
        r, t := Operate(works[n], moments[n]);
        OperationBinds(before, r, t, StateWith(Idle));
        ghost var longer := log + [r];
        forall i: nat, j: nat | i < j <= n && ToldBetween(log, i, j) ensures ToldBetween(longer, i, j) {
          ToldStays(log, r, i, j, j);
        }
        forall i: nat | i < n && (ToldBetween(log, i, n) || r == Reconnected) ensures ToldBetween(longer, i, n + 1) {
          ToldStays(log, r, i, n, n + 1);
        }
        forall i: nat | i < n && log[i].Done? && !ToldBetween(longer, i, n + 1)
          ensures BoundTo(StateWith(Idle), log[i].channel)
        {
          assert BoundTo(before, log[i].channel);
        }
        log := log + [r];
      }
      assert works[..|works|] == works && moments[..|works|] == moments;
    }
  }

  lemma ActsArePossible(s: State, a: Act)
    requires a != Arrive(0)
    ensures CanStep(s, StepOf(a)) && !Throws(s, StepOf(a)) && !StepOf(a).Destroy? && !StepOf(a).Succeed?
  {
  }

  /** What an operation does to the user's tie to a channel. */
  lemma OperationBinds(from: State, r: Outcome, t: Trace, to: State)
    requires t.Leads(from, to) && Marked(from)
    requires match r
             case Done(c) => t.SucceedsAtTheEnd(c)
             case Reconnected => t.ThrowsAtTheEnd()
             case _ => t.Pending(from, to)
    ensures Marked(to)
    ensures r.Done? ==> BoundTo(to, r.channel)
    ensures r != Reconnected ==> forall c :: BoundTo(from, c) ==> BoundTo(to, c) && (r.Done? ==> r.channel == c)
  {
    RunKeepsMarked(false, t.states, t.steps, |t.steps|);
    if r.Done? {
      RunKeepsMarked(false, t.states, t.steps, |t.steps| - 1);
    }
    if r != Reconnected {
      forall c | BoundTo(from, c) ensures BoundTo(to, c) && (r.Done? ==> r.channel == c) {
        StaysBound(false, t.states, t.steps, 0, |t.steps|, c);
        if r.Done? {
          StaysBound(false, t.states, t.steps, 0, |t.steps| - 1, c);
        }
      }
    }
  }
}
