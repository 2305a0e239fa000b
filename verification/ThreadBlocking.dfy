/** Blocking and waking threads (zero_CPUManager.c).  Every operation runs with interrupts disabled, so
  an execution is an interleaving of whole operations. */
module ThreadBlocking {

  const NIL := -1

  datatype State = Runnable | BlockedUser | Elsewhere

  /** The part of a ThreadDesc that matters here; next is the general purpose link. */
  datatype Thread = Thread(state: State, unblockedWithoutBeingBlocked: bool, next: int)

  datatype Event =
    | BlockIfNotUnblocked(t: nat)
    | ClearUnblockFlag(t: nat)
    | Block(t: nat)
    | Unblock(t: nat)
    | Other(t: nat, state: State)   // the scheduler, portal calls, atomic variables

  function Blocked(t: Thread): Thread {
    t.(state := BlockedUser)
  }

  /** The current thread is a runnable one. */
  predicate Enabled(threads: seq<Thread>, e: Event) {
    e.t < |threads| &&
    match e
    case BlockIfNotUnblocked(t) => threads[t].state == Runnable
    case ClearUnblockFlag(t) => threads[t].state == Runnable
    case Block(t) => threads[t].state == Runnable
    case Unblock(t) => true
    case Other(t, state) => true
  }

  function Step(threads: seq<Thread>, e: Event): (r: seq<Thread>)
    requires e.t < |threads|
    ensures |r| == |threads|
  {
    var thread := threads[e.t];
    match e
    case BlockIfNotUnblocked(t) => if thread.unblockedWithoutBeingBlocked then threads
      else threads[t := Blocked(thread)]
    case ClearUnblockFlag(t) => threads[t := thread.(unblockedWithoutBeingBlocked := false)]
    case Block(t) => threads[t := Blocked(thread)]
    case Unblock(t) =>
      threads[t := if thread.state != BlockedUser then thread.(unblockedWithoutBeingBlocked := true)
              else thread.(state := Runnable)]
    case Other(t, state) => threads[t := thread.(state := state)]
  }

  /** The threads of the system, changed in place. */
  class CPUManager {
    var threads: seq<Thread>

    constructor (threads: seq<Thread>)
      ensures this.threads == threads
    {
      this.threads := threads;
    }

    method ThreadBlock(cur: nat)
      requires cur < |threads|
      modifies this
      ensures threads == Step(old(threads), Block(cur))
      ensures threads == old(threads)[cur := old(threads)[cur].(state := BlockedUser)]
    {
      threads := threads[cur := threads[cur].(state := BlockedUser)];
    }

    method ThreadUnblock(t: nat)
      requires t < |threads|
      modifies this
      ensures threads == old(threads)[t := old(threads)[t].(state := Runnable)]
    {
      threads := threads[t := threads[t].(state := Runnable)];
    }

    method BlockIfNotUnblocked(cur: nat)
      requires cur < |threads|
      modifies this
      ensures threads == Step(old(threads), Event.BlockIfNotUnblocked(cur))
      ensures old(threads)[cur].unblockedWithoutBeingBlocked ==> threads == old(threads)
      ensures !old(threads)[cur].unblockedWithoutBeingBlocked ==>
                threads == old(threads)[cur := old(threads)[cur].(state := BlockedUser)]
    {
      if !threads[cur].unblockedWithoutBeingBlocked {
        ThreadBlock(cur);
      }
    }

    method ClearUnblockFlag(cur: nat)
      requires cur < |threads|
      modifies this
      ensures threads == Step(old(threads), Event.ClearUnblockFlag(cur))
      ensures threads == old(threads)[cur := old(threads)[cur].(unblockedWithoutBeingBlocked := false)]
    {
      threads := threads[cur := threads[cur].(unblockedWithoutBeingBlocked := false)];
    }

    /** cpuState is null if the thread behind the proxy is gone. */
    method Unblock(cpuState: int) returns (ret: bool)
      requires cpuState == NIL || 0 <= cpuState < |threads|
      modifies this
      ensures cpuState == NIL ==> !ret && threads == old(threads)
      ensures cpuState != NIL ==>
        ret == (old(threads)[cpuState].state == BlockedUser) && threads == Step(old(threads), Event.Unblock(cpuState))
      ensures cpuState != NIL ==> var t := old(threads)[cpuState];
              threads == old(threads)[cpuState := if t.state == BlockedUser then t.(state := Runnable)
                                                  else t.(unblockedWithoutBeingBlocked := true)]
    {
      if cpuState == NIL {
        return false;
      }
      if threads[cpuState].state != BlockedUser {
        threads := threads[cpuState := threads[cpuState].(unblockedWithoutBeingBlocked := true)];
        ret := false;
      } else {
        ThreadUnblock(cpuState);
        ret := true;
      }
    }
  }

  /** Operations that put thread t to sleep, and operations that end its sleep. */
  predicate PutsToSleep(e: Event, t: nat) {
    e == BlockIfNotUnblocked(t) || e == Block(t) || e == Other(t, BlockedUser)
  }

  predicate Wakes(e: Event, t: nat) {
    e == Unblock(t) || (e.Other? && e.t == t && e.state != BlockedUser)
  }

  // ----- runs -----------------------------------------------------------------------------------------

  /** Operation i of a run leads from one state to the next. */
  ghost predicate Follows(states: seq<seq<Thread>>, events: seq<Event>, i: int) {
    0 <= i < |events| && i + 1 < |states| && Enabled(states[i], events[i]) &&
    states[i + 1] == Step(states[i], events[i])
  }

  ghost predicate IsRun(states: seq<seq<Thread>>, events: seq<Event>) {
    |states| == |events| + 1 && forall i :: 0 <= i < |events| ==> Follows(states, events, i)
  }

  predicate Sleeping(states: seq<seq<Thread>>, t: nat, i: int) {
    0 <= i < |states| && t < |states[i]| && states[i][t].state == BlockedUser
  }

  lemma {:induction false} ThreadsStay(states: seq<seq<Thread>>, events: seq<Event>, i: nat)
    requires IsRun(states, events) && i < |states|
    ensures |states[i]| == |states[0]|
  {
    if i > 0 {
      ThreadsStay(states, events, i - 1);
      assert Follows(states, events, i - 1);
    }
  }

  /** The operation b that put a sleeping thread to sleep: it has slept ever since. */
  lemma {:induction false} WhenBlocked(states: seq<seq<Thread>>, events: seq<Event>, t: nat, n: nat) returns (b: nat)
    requires IsRun(states, events) && n < |states| && Sleeping(states, t, n) && !Sleeping(states, t, 0)
    ensures b < n && !Sleeping(states, t, b) && forall i :: b < i <= n ==> Sleeping(states, t, i)
  {
    if Sleeping(states, t, n - 1) {
      b := WhenBlocked(states, events, t, n - 1);
    } else {
      b := n - 1;
    }
  }

  /** A set flag that is found cleared later has been cleared by the thread itself. */
  lemma {:induction false} ClearedBetween(states: seq<seq<Thread>>, events: seq<Event>, t: nat, i: nat, b: nat)
    requires IsRun(states, events) && i <= b < |states| && t < |states[0]|
    requires |states[i]| == |states[0]| && states[i][t].unblockedWithoutBeingBlocked
    ensures |states[b]| == |states[0]|
    ensures !states[b][t].unblockedWithoutBeingBlocked ==> exists j :: i <= j < b && events[j] == ClearUnblockFlag(t)
    decreases b - i
  {
    ThreadsStay(states, events, b);
    if i < b {
      ThreadsStay(states, events, b - 1);
      ClearedBetween(states, events, t, i, b - 1);
      assert Follows(states, events, b - 1);
    }
  }

  /** No lost wake-up, in any interleaving: a thread that sleeps because of blockIfNotUnblocked has not
      been the target of any unblock since, and every unblock that found it awake earlier was cleared
      by the thread before it went to sleep. */
  lemma NoLostWakeUp(states: seq<seq<Thread>>, events: seq<Event>, t: nat, n: nat) returns (b: nat)
    requires IsRun(states, events) && n < |states| && Sleeping(states, t, n) && !Sleeping(states, t, 0)
    ensures b < n && !Sleeping(states, t, b) && forall i :: b < i <= n ==> Sleeping(states, t, i)
    ensures forall i :: b < i < n ==> events[i] != Unblock(t)
    ensures events[b] == BlockIfNotUnblocked(t) ==>
              forall i :: 0 <= i < b && events[i] == Unblock(t) && !Sleeping(states, t, i) ==>
                exists j :: i < j < b && events[j] == ClearUnblockFlag(t)
  {
    ThreadsStay(states, events, n);
    b := WhenBlocked(states, events, t, n);
    forall i | b < i < n
      ensures events[i] != Unblock(t)
    {
      var i' := i + 1;
      assert Follows(states, events, i) && Sleeping(states, t, i) && Sleeping(states, t, i');
    }
    if events[b] == BlockIfNotUnblocked(t) {
      assert Follows(states, events, b);
      forall i | 0 <= i < b && events[i] == Unblock(t) && !Sleeping(states, t, i)
        ensures exists j :: i < j < b && events[j] == ClearUnblockFlag(t)
      {
        assert Follows(states, events, i);
        ThreadsStay(states, events, i);
        ThreadsStay(states, events, i + 1);
        ThreadsStay(states, events, b);
        assert Sleeping(states, t, b + 1);
        ClearedBetween(states, events, t, i + 1, b);
      }
    }
  }

  /** Since the thread cleared its flag at c, the flag is set exactly if an unblock has found the thread
      awake. */
  lemma {:induction false} FlagSince(states: seq<seq<Thread>>, events: seq<Event>, t: nat, c: nat, k: nat)
    requires IsRun(states, events) && t < |states[0]| && c < k < |states| && events[c] == ClearUnblockFlag(t)
    requires forall i :: c < i < k ==> events[i] != ClearUnblockFlag(t)
    ensures |states[k]| == |states[0]|
    ensures states[k][t].unblockedWithoutBeingBlocked <==>
              exists i :: c < i < k && events[i] == Unblock(t) && !Sleeping(states, t, i)
    decreases k
  {
    ThreadsStay(states, events, k);
    ThreadsStay(states, events, k - 1);
    assert Follows(states, events, k - 1);
    if k > c + 1 {
      FlagSince(states, events, t, c, k - 1);
      assert states[k][t].unblockedWithoutBeingBlocked <==>
             states[k - 1][t].unblockedWithoutBeingBlocked ||
             (events[k - 1] == Unblock(t) && !Sleeping(states, t, k - 1));
    }
  }

  /** In any run: blockIfNotUnblocked at k puts the thread to sleep exactly if no unblock has found it awake
      since it cleared its flag at c; otherwise the thread goes on. */
  lemma BlocksExactly(states: seq<seq<Thread>>, events: seq<Event>, t: nat, c: nat, k: nat)
    requires IsRun(states, events) && t < |states[0]| && c < k < |events|
    requires events[c] == ClearUnblockFlag(t) && events[k] == BlockIfNotUnblocked(t)
    requires forall i :: c < i < k ==> events[i] != ClearUnblockFlag(t)
    ensures Sleeping(states, t, k + 1) <==>
              !exists i :: c < i < k && events[i] == Unblock(t) && !Sleeping(states, t, i)
    ensures !Sleeping(states, t, k + 1) ==> states[k + 1] == states[k]
  {
    FlagSince(states, events, t, c, k);
    ThreadsStay(states, events, k + 1);
    assert Follows(states, events, k);
  }

  /** The protocol of waiter and waker: the waiter clears its flag (at c) before it looks at the
      condition, and goes to sleep (at k) only later and only with blockIfNotUnblocked; the waker
      unblocks it (at u) after c.  Then the waiter is awake after both, unless it has cleared its flag
      again, or gone to sleep again or in another way. */
  lemma HandshakeWakes(states: seq<seq<Thread>>, events: seq<Event>, t: nat, c: nat, k: nat, u: nat, n: nat)
    requires IsRun(states, events) && !Sleeping(states, t, 0) && t < |states[0]|
    requires c < k < n < |states| && c < u < n && events[c] == ClearUnblockFlag(t) &&
             events[k] == BlockIfNotUnblocked(t) && events[u] == Unblock(t)
    requires forall i :: c < i < n ==> events[i] != ClearUnblockFlag(t)
    requires forall i :: c < i < n && i != k ==> !PutsToSleep(events[i], t)
    ensures !Sleeping(states, t, n)
  {
    if Sleeping(states, t, n) {
      var b := NoLostWakeUp(states, events, t, n);
      assert Follows(states, events, c);
      AwakeAfterClear(states, events, t, c, k, b, n);
      NotAsleepBefore(states, events, t, c, k, u);
    }
  }

  /** The thread fell asleep at k and nowhere else since c. */
  lemma AwakeAfterClear(states: seq<seq<Thread>>, events: seq<Event>, t: nat, c: nat, k: nat, b: nat, n: nat)
    requires IsRun(states, events) && t < |states[0]| && c < k < n < |states| && b < n &&
             events[c] == ClearUnblockFlag(t)
    requires !Sleeping(states, t, b) && forall i :: b < i <= n ==> Sleeping(states, t, i)
    requires forall i :: c < i < n && i != k ==> !PutsToSleep(events[i], t)
    ensures b == k
  {
    ThreadsStay(states, events, c);
    ThreadsStay(states, events, b);
    assert Follows(states, events, c);
    assert b >= c || Sleeping(states, t, c);
    var b' := b + 1;
    assert Follows(states, events, b) && Sleeping(states, t, b');
  }

  lemma {:induction false} NotAsleepBefore(states: seq<seq<Thread>>, events: seq<Event>, t: nat, c: nat, k: nat, u: nat)
    requires IsRun(states, events) && t < |states[0]| && c < u <= k < |events| && events[c] == ClearUnblockFlag(t)
    requires forall i :: c < i < k ==> !PutsToSleep(events[i], t)
    ensures !Sleeping(states, t, u)
    decreases u
  {
    assert Follows(states, events, u - 1);
    ThreadsStay(states, events, u - 1);
    if u > c + 1 {
      NotAsleepBefore(states, events, t, c, k, u - 1);
    }
  }

  /** The plain block operation takes no notice of what came before it: until it is put to sleep again, the
      thread sleeps exactly as long as nothing wakes it. */
  lemma {:induction false} SleepsUntilWoken(states: seq<seq<Thread>>, events: seq<Event>, t: nat, k: nat, n: nat)
    requires IsRun(states, events) && t < |states[0]| && k < n < |states| && events[k] == Block(t)
    requires forall i :: k < i < n ==> !PutsToSleep(events[i], t)
    ensures Sleeping(states, t, n) <==> forall i :: k < i < n ==> !Wakes(events[i], t)
    decreases n
  {
    ThreadsStay(states, events, n - 1);
    assert Follows(states, events, n - 1);
    if n > k + 1 {
      SleepsUntilWoken(states, events, t, k, n - 1);
      assert !PutsToSleep(events[n - 1], t);
      if Sleeping(states, t, n) {
        assert Sleeping(states, t, n - 1);
      }
    }
  }

  /** The handshake with the plain block operation at k, in any run: if nothing else wakes the waiter or
      puts it to sleep, it sleeps at the end exactly if the wake-up came first. */
  lemma PlainBlockLosesWakeUp(states: seq<seq<Thread>>, events: seq<Event>, t: nat, c: nat, k: nat, u: nat, n: nat)
    requires IsRun(states, events) && !Sleeping(states, t, 0) && t < |states[0]|
    requires c < k < n < |states| && c < u < n && events[c] == ClearUnblockFlag(t) && events[k] == Block(t) &&
             events[u] == Unblock(t)
    requires forall i :: c < i < n && i != k ==> !PutsToSleep(events[i], t)
    requires forall i :: c < i < n && i != u ==> !Wakes(events[i], t)
    ensures Sleeping(states, t, n) <==> u < k
  {
    SleepsUntilWoken(states, events, t, k, n);
    assert Wakes(events[u], t);
  }

  /** Such a run exists: the wake-up is lost. */
  lemma LostWakeUp()
    ensures exists states, events ::
      IsRun(states, events) && |events| == 3 && events[0] == ClearUnblockFlag(0) && events[1] == Unblock(0) &&
      events[2] == Block(0) &&
      !Sleeping(states, 0, 0) && Sleeping(states, 0, 3)
  {
    var awake, flagged := Thread(Runnable, false, NIL), Thread(Runnable, true, NIL);
    var states := [[awake], [awake], [flagged], [Blocked(flagged)]];
    var events := [ClearUnblockFlag(0), Unblock(0), Block(0)];
    assert Follows(states, events, 0) && Follows(states, events, 1) && Follows(states, events, 2);
    assert IsRun(states, events);
    PlainBlockLosesWakeUp(states, events, 0, 0, 2, 1, 3);
  }
}
