/** Atomic variables, on which threads wait for a value (zero_AtomicVariable.c). */
module AtomicVariables {
  import opened ThreadBlocking

  function Head(ws: seq<nat>): int {
    if ws == [] then NIL else ws[0]
  }

  predicate LinkAt(threads: seq<Thread>, ws: seq<nat>, i: int) {
    0 <= i < |ws| ==> ws[i] < |threads| && threads[ws[i]].next == if i + 1 < |ws| then ws[i + 1] else NIL
  }

  /** The links from head on visit exactly the threads ws and end. */
  ghost predicate IsList(threads: seq<Thread>, head: int, ws: seq<nat>) {
    head == Head(ws) && forall i :: 0 <= i < |ws| ==> LinkAt(threads, ws, i)
  }

  /** What a thread waits for. */
  datatype Test = UntilNot(value: int) | Until(value: int) {
    predicate Waits(v: int) {
      if UntilNot? then v == value else v != value
    }
  }

  /** Two lists from the same head are the same. */
  lemma {:induction false} SameList(threads: seq<Thread>, head: int, ws: seq<nat>, vs: seq<nat>)
    requires IsList(threads, head, ws) && IsList(threads, head, vs)
    ensures ws == vs
    decreases |ws|
  {
    if ws == [] {
      assert vs == [];
    } else {
      assert LinkAt(threads, ws, 0) && LinkAt(threads, vs, 0) && vs != [] && vs[0] == ws[0];
      TailList(threads, ws);
      TailList(threads, vs);
      SameList(threads, threads[ws[0]].next, ws[1..], vs[1..]);
      assert ws == [ws[0]] + ws[1..] && vs == [vs[0]] + vs[1..];
    }
  }

  lemma TailList(threads: seq<Thread>, ws: seq<nat>)
    requires ws != [] && IsList(threads, ws[0], ws)
    ensures ws[0] < |threads| && IsList(threads, threads[ws[0]].next, ws[1..])
  {
    assert LinkAt(threads, ws, 0);
    forall i | 0 <= i < |ws[1..]|
      ensures LinkAt(threads, ws[1..], i)
    {
      assert LinkAt(threads, ws, i + 1);
    }
  }

  lemma {:induction false} RestOfList(threads: seq<Thread>, head: int, ws: seq<nat>, i: nat)
    requires IsList(threads, head, ws) && i <= |ws|
    ensures IsList(threads, Head(ws[i..]), ws[i..])
  {
    if i == 0 {
      assert ws[0..] == ws;
    } else {
      RestOfList(threads, head, ws, i - 1);
      TailList(threads, ws[i - 1..]);
      assert ws[i - 1..][1..] == ws[i..] && LinkAt(threads, ws, i - 1);
    }
  }

  /** A list that ends visits no thread twice. */
  lemma ListDistinct(threads: seq<Thread>, head: int, ws: seq<nat>, i: nat, j: nat)
    requires IsList(threads, head, ws) && i < j < |ws|
    ensures ws[i] != ws[j]
  {
    if ws[i] == ws[j] {
      RestOfList(threads, head, ws, i);
      RestOfList(threads, head, ws, j);
      SameList(threads, ws[i], ws[i..], ws[j..]);
      assert false;
    }
  }

  /** Pushing a thread keeps the list finite exactly if the thread is not on it already: pushed a second
      time, it becomes part of a cycle that never ends. */
  lemma PushKeepsList(threads: seq<Thread>, head: int, ws: seq<nat>, t: nat)
    requires IsList(threads, head, ws) && t < |threads|
    ensures var threads' := threads[t := threads[t].(next := head)];
            (exists ws' :: IsList(threads', t, ws')) <==> t !in ws
    ensures t !in ws ==> IsList(threads[t := threads[t].(next := head)], t, [t] + ws)
  {
    var threads' := threads[t := threads[t].(next := head)];
    if t !in ws {
      PushNew(threads, head, ws, t);
      assert IsList(threads', t, [t] + ws);
    } else {
      var k :| 0 <= k < |ws| && ws[k] == t;
      forall ws' {:trigger IsList(threads', t, ws')}
        ensures !IsList(threads', t, ws')
      {
        PushTwice(threads, head, ws, t, k, ws');
      }
    }
  }

  lemma PushNew(threads: seq<Thread>, head: int, ws: seq<nat>, t: nat)
    requires IsList(threads, head, ws) && t < |threads| && t !in ws
    ensures IsList(threads[t := threads[t].(next := head)], t, [t] + ws)
  {
    var threads', ws' := threads[t := threads[t].(next := head)], [t] + ws;
    forall i | 0 <= i < |ws'|
      ensures LinkAt(threads', ws', i)
    {
      if i > 0 {
        assert LinkAt(threads, ws, i - 1) && ws[i - 1] in ws;
      }
    }
  }

  /** After pushing t = ws[k] again, the list from t leads along ws[..k] back to t. */
  lemma {:induction false} PushTwice(threads: seq<Thread>, head: int, ws: seq<nat>, t: nat, k: nat, ws': seq<nat>)
    requires IsList(threads, head, ws) && t < |threads| && k < |ws| && ws[k] == t
    ensures !IsList(threads[t := threads[t].(next := head)], t, ws')
  {
    var threads' := threads[t := threads[t].(next := head)];
    if IsList(threads', t, ws') {
      Follow(threads, head, ws, t, k, ws', k);
      RestOfList(threads', t, ws', k + 1);
      SameList(threads', t, ws', ws'[k + 1..]);
    }
  }

  /** The list ws' from t visits ws[..i] next. */
  lemma {:induction false} Follow(threads: seq<Thread>, head: int, ws: seq<nat>, t: nat, k: nat, ws': seq<nat>, i: nat)
    requires IsList(threads, head, ws) && t < |threads| && k < |ws| && ws[k] == t && i <= k
    requires IsList(threads[t := threads[t].(next := head)], t, ws')
    ensures i + 1 < |ws'| && ws'[i + 1] == ws[i]
  {
    var threads' := threads[t := threads[t].(next := head)];
    if i == 0 {
      assert LinkAt(threads', ws', 0);
    } else {
      Follow(threads, head, ws, t, k, ws', i - 1);
      assert LinkAt(threads', ws', i) && LinkAt(threads, ws, i - 1);
      ListDistinct(threads, head, ws, i - 1, k);
    }
  }

  /** The waiters ws are exactly the threads that block on the variable, and they sleep, but for the thread
      aside, which may be awake.  In list mode they form an acyclic list, otherwise there is at most one. */
  ghost predicate WaitersBut(threads: seq<Thread>, listMode: int, head: int, ws: seq<nat>, waiting: map<nat, Test>,
                             aside: int) {
    (forall t :: t in waiting <==> t in ws) &&
    (if listMode == 1 then IsList(threads, head, ws) else head == Head(ws) && |ws| <= 1) &&
    forall t :: t in waiting ==> t < |threads| && (t != aside ==> threads[t].state == BlockedUser)
  }

  ghost predicate WaitersOk(threads: seq<Thread>, listMode: int, head: int, ws: seq<nat>, waiting: map<nat, Test>) {
    WaitersBut(threads, listMode, head, ws, waiting, -1)
  }

  /** Whatever happens to threads that do not wait leaves the waiters as they are. */
  lemma OthersLeaveWaiters(threads: seq<Thread>, threads': seq<Thread>, listMode: int, head: int, ws: seq<nat>,
                           waiting: map<nat, Test>)
    requires WaitersOk(threads, listMode, head, ws, waiting) && |threads'| == |threads|
    requires forall t :: t in waiting && t < |threads| ==> threads'[t] == threads[t]
    ensures WaitersOk(threads', listMode, head, ws, waiting)
  {
    if listMode == 1 {
      forall i | 0 <= i < |ws|
        ensures LinkAt(threads', ws, i)
      {
        assert LinkAt(threads, ws, i) && ws[i] in ws;
      }
    }
  }

  /** CPUManager.unblock keeps the waiters of a variable in order exactly if it is not used on one of
      them: waking a waiter behind the back of the variable leaves it on the list. */
  lemma UnblockKeepsWaitersExactly(threads: seq<Thread>, listMode: int, head: int, ws: seq<nat>,
                                   waiting: map<nat, Test>, t: nat)
    requires WaitersOk(threads, listMode, head, ws, waiting) && t < |threads|
    ensures WaitersOk(Step(threads, Unblock(t)), listMode, head, ws, waiting) <==> t !in waiting
  {
    if t !in waiting {
      OthersLeaveWaiters(threads, Step(threads, Unblock(t)), listMode, head, ws, waiting);
    }
  }

  class AtomicVariable {
    const cpu: CPUManager
    var value: int
    var listMode: int
    var blockedThread: int
    ghost var waiting: map<nat, Test>   // the threads that block on the variable, and what for
    ghost var ws: seq<nat>

    ghost predicate Valid()
      reads this, cpu
    {
      WaitersOk(cpu.threads, listMode, blockedThread, ws, waiting)
    }

    /** Every waiter sleeps for a reason that still holds. */
    ghost predicate Justified()
      reads this
    {
      forall t :: t in waiting ==> waiting[t].Waits(value)
    }

    constructor (cpu: CPUManager)
      ensures Valid() && this.cpu == cpu && value == 0 && listMode == 0 && blockedThread == NIL && waiting == map[]
    {
      this.cpu := cpu;
      value, listMode, blockedThread, waiting, ws := 0, 0, NIL, map[], [];
    }

    method ActivateListMode()
      requires Valid() && blockedThread == NIL
      modifies this
      ensures Valid() && listMode == 1 && value == old(value) && waiting == map[] && cpu.threads == old(cpu.threads)
    {
      NoWaiter(waiting, ws);
      listMode := 1;
    }

    /** Everything is in order, but the thread cur may have been woken behind the back of the variable. */
    ghost predicate ValidBut(cur: nat)
      reads this, cpu
    {
      WaitersBut(cpu.threads, listMode, blockedThread, ws, waiting, cur)
    }

    /** The thread cur can wait: in list mode it is not on the list yet, otherwise no other thread waits. */
    ghost predicate MayWait(cur: nat)
      reads this
    {
      if listMode == 1 then cur !in ws else blockedThread == NIL || blockedThread == cur
    }

    /** atomicvariable_blockIfEqual.  The waiters stay in order exactly if cur can wait; a thread that is
        still on the list turns it into a cycle, and outside list mode another waiter is forgotten. */
    method BlockIfEqual(cur: nat, test: int)
      requires cur < |cpu.threads| && cpu.threads[cur].state == Runnable
      modifies this, cpu
      ensures value == old(value) && listMode == old(listMode)
      ensures value != test ==> cpu.threads == old(cpu.threads) && blockedThread == old(blockedThread)
      ensures value != test ==> waiting == old(waiting) && ws == old(ws)
      ensures value == test ==> waiting == old(waiting)[cur := UntilNot(test)] && blockedThread == cur
      ensures value == test ==> var t := old(cpu.threads)[cur];
              cpu.threads == old(cpu.threads)[cur := t.(state := BlockedUser,
                                                        next := if listMode == 1 then old(blockedThread) else t.next)]
      ensures value == test && old(ValidBut(cur)) ==> (Valid() <==> old(MayWait(cur)))
      ensures old(Justified()) ==> Justified()
    {
      if value == test {
        Enqueue(cur, UntilNot(test));
      }
    }

    /** atomicvariable_blockIfNotEqual. */
    method BlockIfNotEqual(cur: nat, test: int)
      requires cur < |cpu.threads| && cpu.threads[cur].state == Runnable
      modifies this, cpu
      ensures value == old(value) && listMode == old(listMode)
      ensures value == test ==> cpu.threads == old(cpu.threads) && blockedThread == old(blockedThread)
      ensures value == test ==> waiting == old(waiting) && ws == old(ws)
      ensures value != test ==> waiting == old(waiting)[cur := Until(test)] && blockedThread == cur
      ensures value != test ==> var t := old(cpu.threads)[cur];
              cpu.threads == old(cpu.threads)[cur := t.(state := BlockedUser,
                                                        next := if listMode == 1 then old(blockedThread) else t.next)]
      ensures value != test && old(ValidBut(cur)) ==> (Valid() <==> old(MayWait(cur)))
      ensures old(Justified()) ==> Justified()
    {
      if value != test {
        Enqueue(cur, Until(test));
      }
    }

    /** The thread cur has gone to sleep on the variable, whose head was head. */
    ghost predicate Sleeps(threads: seq<Thread>, head: int, cur: nat)
      reads this, cpu
    {
      cur < |threads| && cpu.threads == threads[cur := Asleep(threads, cur, listMode, head)] && blockedThread == cur
    }

    /** What both block operations do when the thread has to wait. */
    method Enqueue(cur: nat, ghost test: Test)
      requires cur < |cpu.threads| && cpu.threads[cur].state == Runnable && test.Waits(value)
      modifies this, cpu
      ensures value == old(value) && listMode == old(listMode) && waiting == old(waiting)[cur := test]
      ensures Sleeps(old(cpu.threads), old(blockedThread), cur)
      ensures old(ValidBut(cur)) ==> (Valid() <==> old(MayWait(cur)))
      ensures old(Justified()) ==> Justified()
    {
      ghost var start, head, vs, wants := cpu.threads, blockedThread, ws, waiting;
      if listMode == 1 {
        cpu.threads := cpu.threads[cur := cpu.threads[cur].(next := blockedThread)];
        blockedThread := cur;
      } else {
        blockedThread := cur;
      }
      cpu.ThreadBlock(cur);
      ws := if listMode != 1 && cur in vs then vs else [cur] + vs;
      waiting := waiting[cur := test];
      if WaitersBut(start, listMode, head, vs, wants, cur) {
        WaitsExactly(start, cpu.threads, listMode, head, vs, wants, cur, test, ws);
      }
    }

    /** atomicvariable_atomicUpdateUnblock: in list mode every waiter wakes up; otherwise the thread that the
        caller names wakes up if it sleeps and there is a waiter.  The waiters stay in order exactly if
        this is the waiter: otherwise the waiter goes on sleeping but is forgotten. */
    method AtomicUpdateUnblock(value: int, cpuState: int)
      requires Valid() && (cpuState == NIL || 0 <= cpuState < |cpu.threads|)
      modifies this, cpu
      ensures this.value == value && listMode == old(listMode) && |cpu.threads| == |old(cpu.threads)|
      ensures Valid() <==> !(old(Wakes(cpuState)) && old(blockedThread) != cpuState)
      ensures Valid() && (listMode == 1 || old(Wakes(cpuState))) ==> waiting == map[] && Justified()
      ensures listMode != 1 && (!old(Wakes(cpuState)) || old(blockedThread) != cpuState) ==> waiting == old(waiting)
      ensures forall t: nat :: t < |cpu.threads| ==>
                cpu.threads[t] ==
                if (listMode == 1 && t in old(waiting)) ||
                   (listMode != 1 && t == cpuState && old(blockedThread) != NIL &&
                    old(cpu.threads)[t].state == BlockedUser)
                then old(cpu.threads)[t].(state := Runnable) else old(cpu.threads)[t]
      ensures blockedThread == if listMode == 1 || (cpuState != NIL && old(blockedThread) != NIL &&
                                                    old(cpu.threads)[cpuState].state == BlockedUser)
                               then NIL else old(blockedThread)
    {
      this.value := value;
      if listMode == 1 {
        WakeAll();
      } else if cpuState != NIL && blockedThread != NIL {
        assert ws == [blockedThread] && ws[0] in waiting;
        if cpu.threads[cpuState].state == BlockedUser {
          if blockedThread == cpuState {
            waiting := map[];
          }
          blockedThread := NIL;
          cpu.ThreadUnblock(cpuState);
          ws := [];
        }
      }
    }

    /** Outside list mode the thread that the caller names is woken. */
    ghost predicate Wakes(cpuState: int)
      reads this, cpu
    {
      listMode != 1 && cpuState != NIL && blockedThread != NIL && 0 <= cpuState < |cpu.threads| &&
      cpu.threads[cpuState].state == BlockedUser
    }

    method WakeAll()
      requires Valid() && listMode == 1
      modifies this`blockedThread, this`waiting, this`ws, cpu
      ensures Valid() && waiting == map[] && blockedThread == NIL
      ensures |cpu.threads| == |old(cpu.threads)|
      ensures forall t: nat :: t < |cpu.threads| ==>
                cpu.threads[t] == if t in old(waiting) then old(cpu.threads)[t].(state := Runnable)
                                  else old(cpu.threads)[t]
    {
      ghost var start := cpu.threads;
      ghost var i := 0;
      var t := blockedThread;
      while t != NIL
        invariant 0 <= i <= |ws| && t == Head(ws[i..]) && |cpu.threads| == |start| && IsList(start, blockedThread, ws)
        invariant waiting == old(waiting) && ws == old(ws) && blockedThread == old(blockedThread)
        invariant forall u: nat ::
                    u < |start| ==> cpu.threads[u] == if u in ws[..i] then start[u].(state := Runnable) else start[u]
        decreases |ws| - i
      {
        assert LinkAt(start, ws, i);
        assert ws[..i + 1] == ws[..i] + [ws[i]];
        cpu.ThreadUnblock(t);
        t := cpu.threads[t].next;
        i := i + 1;
      }
      assert ws[..i] == ws;
      blockedThread, waiting, ws := NIL, map[], [];
    }
  }

  /** A thread that has gone to sleep on a variable. */
  function Asleep(threads: seq<Thread>, cur: nat, listMode: int, head: int): Thread
    requires cur < |threads|
  {
    threads[cur].(state := BlockedUser, next := if listMode == 1 then head else threads[cur].next)
  }

  /** Putting cur to sleep keeps the waiters in order exactly if it can wait. */
  lemma WaitsExactly(threads: seq<Thread>, threads': seq<Thread>, listMode: int, head: int, ws: seq<nat>,
                     waiting: map<nat, Test>, cur: nat, test: Test, ws': seq<nat>)
    requires WaitersBut(threads, listMode, head, ws, waiting, cur) && cur < |threads|
    requires threads' == threads[cur := Asleep(threads, cur, listMode, head)]
    requires ws' == if listMode != 1 && cur in ws then ws else [cur] + ws
    ensures WaitersOk(threads', listMode, cur, ws', waiting[cur := test]) <==>
            if listMode == 1 then cur !in ws else head == NIL || head == cur
  {
    if listMode == 1 {
      var linked := threads[cur := threads[cur].(next := head)];
      PushKeepsList(threads, head, ws, cur);
      if cur !in ws {
        StateIsNoLink(linked, threads', cur, ws');
      } else if IsList(threads', cur, ws') {
        StateIsNoLink(threads', linked, cur, ws');
        assert false;
      }
    }
  }

  lemma NoWaiter(waiting: map<nat, Test>, ws: seq<nat>)
    requires forall t :: t in waiting <==> t in ws
    ensures ws == [] ==> waiting == map[]
  {
  }

  lemma StateIsNoLink(threads: seq<Thread>, threads': seq<Thread>, head: int, ws: seq<nat>)
    requires IsList(threads, head, ws) && |threads'| == |threads|
    requires forall t :: 0 <= t < |threads| ==> threads'[t].next == threads[t].next
    ensures IsList(threads', head, ws)
  {
    forall i | 0 <= i < |ws|
      ensures LinkAt(threads', ws, i)
    {
      assert LinkAt(threads, ws, i);
    }
  }

  /** A waiter is woken by CPUManager.unblock, behind the back of the variable, and blocks again: the list of
      waiters becomes a cycle. */
  method BlockTwice(v: AtomicVariable, cur: nat) returns (woken: bool)
    requires v.Valid() && v.blockedThread == NIL && cur < |v.cpu.threads| && v.cpu.threads[cur].state == Runnable
    modifies v, v.cpu
    ensures woken && v.blockedThread == cur
    ensures forall ws :: !IsList(v.cpu.threads, v.blockedThread, ws)
  {
    v.ActivateListMode();
    v.BlockIfEqual(cur, v.value);
    woken := v.cpu.Unblock(cur);
    v.BlockIfEqual(cur, v.value);
    OwnSuccessor(v.cpu.threads, cur);
  }

  lemma OwnSuccessor(threads: seq<Thread>, t: nat)
    requires t < |threads| && threads[t].next == t
    ensures forall ws :: !IsList(threads, t, ws)
  {
    forall ws | IsList(threads, t, ws)
      ensures false
    {
      TailList(threads, ws);
      SameList(threads, t, ws, ws[1..]);
    }
  }
}
